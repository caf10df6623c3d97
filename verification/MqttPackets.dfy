/**
 * The packets of MQTT 3.1.1 octet by octet: what parse_mqtt in mongoose.c makes of each of them, and the
 * octets that its senders write, with the numbers of the standard.
 */
module MqttPackets {
  import opened Bytes
  import opened Mqtt

  // ---------------------------------------------------------------- the remaining length

  /** Seven bits in each octet, the lowest first. */
  function Sevens(s: seq<byte>): nat {
    if s == [] then 0 else s[0] % 128 + 128 * Sevens(s[1..])
  }

  /** Every octet says that another one follows. */
  predicate GoesOn(s: seq<byte>) { forall i :: 0 <= i < |s| ==> s[i] >= 128 }

  /** Up to four octets that go on and one that ends are a length; five that go on are none. */
  lemma LengthIsRead(s: seq<byte>, last: byte, more: seq<byte>)
    requires GoesOn(s)
    ensures |s| <= 4 ==> ScanLength(s, 0) == NeedMore
    ensures |s| <= 4 && last < 128 ==> ScanLength(s + [last] + more, 0) == Length(Sevens(s + [last]), |s| + 1)
    ensures |s| == 5 ==> ScanLength(s + more, 0) == TooLong
  {
    if |s| <= 4 {
      LengthGoesOn(s, 0);
      if last < 128 {
        LengthEnds(s, last, more, 0);
      }
    } else if |s| == 5 {
      LengthTooLong(s, more, 0);
    }
  }

  lemma {:induction false} LengthGoesOn(s: seq<byte>, k: nat)
    requires GoesOn(s) && |s| + k <= 4
    ensures ScanLength(s, k) == NeedMore
    decreases |s|
  {
    if s != [] {
      LengthGoesOn(s[1..], k + 1);
    }
  }

  lemma {:induction false} LengthEnds(s: seq<byte>, last: byte, more: seq<byte>, k: nat)
    requires GoesOn(s) && |s| + k <= 4 && last < 128
    ensures ScanLength(s + [last] + more, k) == Length(Sevens(s + [last]), |s| + 1)
    decreases |s|
  {
    if s == [] {
      assert [last][1..] == [] && Sevens([last]) == last;
    } else {
      LengthEnds(s[1..], last, more, k + 1);
      assert (s + [last] + more)[1..] == s[1..] + [last] + more && (s + [last])[1..] == s[1..] + [last];
    }
  }

  lemma {:induction false} LengthTooLong(s: seq<byte>, more: seq<byte>, k: nat)
    requires GoesOn(s) && |s| + k == 5 && k <= 4
    ensures ScanLength(s + more, k) == TooLong
    decreases |s|
  {
    if k < 4 {
      LengthTooLong(s[1..], more, k + 1);
      assert (s + more)[1..] == s[1..] + more;
    }
  }

  /** The table of section 2.2.3. */
  lemma LengthTable(n: nat)
    ensures n < 128 ==> LengthOctets(n) == [n]
    ensures 128 <= n < 16384 ==> LengthOctets(n) == [128 + n % 128, n / 128]
    ensures 16384 <= n < 2097152 ==> LengthOctets(n) == [128 + n % 128, 128 + n / 128 % 128, n / 16384]
    ensures 2097152 <= n < 268435456
            ==> LengthOctets(n) == [128 + n % 128, 128 + n / 128 % 128, 128 + n / 16384 % 128, n / 2097152]
  {
    hide *;
    if n < 128 {
      LastOctet(n);
    } else if n < 16384 {
      TwoOctets(n);
    } else if n < 2097152 {
      ThreeOctets(n);
    } else if n < 268435456 {
      FourOctets(n);
    }
  }

  lemma FourOctets(n: nat)
    requires 2097152 <= n < 268435456
    ensures LengthOctets(n) == [128 + n % 128, 128 + n / 128 % 128, 128 + n / 16384 % 128, n / 2097152]
  {
    hide LengthOctets;
    Quotients(n);
    NextOctet(n);
    ThreeOctets(n / 128);
    Row4(128 + n % 128, 128 + n / 128 % 128, 128 + n / 16384 % 128, n / 2097152);
  }

  lemma TwoOctets(n: nat)
    requires 128 <= n < 16384
    ensures LengthOctets(n) == [128 + n % 128, n / 128]
  {
    NextOctet(n);
    LastOctet(n / 128);
    hide LengthOctets;
  }

  lemma ThreeOctets(n: nat)
    requires 16384 <= n < 2097152
    ensures LengthOctets(n) == [128 + n % 128, 128 + n / 128 % 128, n / 16384]
  {
    hide LengthOctets;
    Quotients(n);
    NextOctet(n);
    TwoOctets(n / 128);
    Row3(128 + n % 128, 128 + n / 128 % 128, n / 16384);
  }

  lemma Row3(a: byte, b: byte, c: byte)
    ensures [a] + [b, c] == [a, b, c]
  {
  }

  lemma Row4(a: byte, b: byte, c: byte, d: byte)
    ensures [a] + [b, c, d] == [a, b, c, d]
  {
  }

  lemma Quotients(n: nat)
    ensures n / 128 / 128 == n / 16384 && n / 128 / 16384 == n / 2097152
    ensures 16384 <= n < 2097152 ==> 128 <= n / 128 < 16384
    ensures 2097152 <= n < 268435456 ==> 16384 <= n / 128 < 2097152
  {
  }

  lemma LastOctet(n: nat)
    ensures n < 128 ==> LengthOctets(n) == [n]
  {
  }

  lemma NextOctet(n: nat)
    requires n >= 128
    ensures LengthOctets(n) == [128 + n % 128] + LengthOctets(n / 128)
  {
  }

  // ---------------------------------------------------------------- packets with short bodies

  /** A packet of fewer than 128 octets behind its header. */
  lemma ShortIsFramed(first: byte, b: seq<byte>, more: seq<byte>)
    requires |b| < 128
    ensures Parse([first, |b|] + b + more)
            == match ParseBody(first / 16, first / 2 % 4, b, b + more)
               case None => Malformed
               case Some(body) => Packet(Message(first / 16, first / 2 % 4, body), 2 + |b|)
  {
    PacketIsFramed(first, b, more);
    LastOctet(|b|);
    hide *;
    assert [first] + [|b|] == [first, |b|];
  }

  /** The command is in the upper half of the first octet, the quality of service in bits 1 and 2. */
  lemma PacketIsFramed(first: byte, b: seq<byte>, more: seq<byte>)
    requires |b| < 0x1000_0000
    ensures Parse([first] + LengthOctets(|b|) + b + more)
            == match ParseBody(first / 16, first / 2 % 4, b, b + more)
               case None => Malformed
               case Some(body) =>
                 Packet(Message(first / 16, first / 2 % 4, body), 1 + |LengthOctets(|b|)| + |b|)
  {
    hide *;
    BigEnough();
    ParseFramed(first / 16, first % 16, b, more);
    FirstParts(first);
    assert Framed(first / 16, first % 16, b) == [first] + LengthOctets(|b|) + b by {
      FramedIs(first / 16, first % 16, b);
    }
  }

  lemma BigEnough()
    ensures Pow128(4) == 0x1000_0000
  {
  }

  lemma FirstParts(first: byte)
    ensures first / 16 < 16 && first % 16 < 16 && first / 16 * 16 + first % 16 == first
    ensures Qos(first % 16) == first / 2 % 4
  {
  }

  lemma FramedIs(cmd: nat, flags: nat, b: seq<byte>)
    requires cmd < 16 && flags < 16
    ensures Framed(cmd, flags, b) == [cmd * 16 + flags] + LengthOctets(|b|) + b
  {
    hide LengthOctets;
  }

  /** CONNACK: the flags of the session, and the code that says whether the connection was accepted. */
  lemma ConnackIsRead(session: byte, code: byte, more: seq<byte>)
    ensures Parse([0x20, 2, session, code] + more) == Packet(Message(2, 0, ConnackBody(code)), 4)
  {
    ShortIsFramed(0x20, [session, code], more);
    assert [0x20, 2] + [session, code] == [0x20, 2, session, code];
    hide Parse;
  }

  lemma ShortConnackIsMalformed(flags: nat, b: seq<byte>, more: seq<byte>)
    requires flags < 16 && |b| < 2
    ensures Parse([0x20 + flags, |b|] + b + more) == Malformed
  {
    ShortIsFramed(0x20 + flags, b, more);
    hide Parse;
  }

  /** PUBACK, PUBREC, PUBREL, PUBCOMP and, with more octets in it, SUBACK. */
  lemma AckIsRead(first: byte, hi: byte, lo: byte, codes: seq<byte>, more: seq<byte>)
    requires first / 16 in {4, 5, 6, 7, 9} && |codes| < 126
    ensures Parse([first, 2 + |codes|, hi, lo] + codes + more)
            == Packet(Message(first / 16, first / 2 % 4, AckBody(Some(hi as nat * 256 + lo))), 4 + |codes|)
  {
    var b := [hi, lo] + codes;
    ShortIsFramed(first, b, more);
    assert [first, |b|] + b == [first, 2 + |codes|, hi, lo] + codes;
    assert ParseBody(first / 16, first / 2 % 4, b, b + more) == Some(AckBody(Some(hi as nat * 256 + lo)));
    hide Parse, ParseBody;
  }

  /** Every command that is in no case of the switch. */
  lemma OtherIsRead(first: byte, b: seq<byte>, more: seq<byte>)
    requires (first < 0x10 || first >= 0xA0) && |b| < 128
    ensures Parse([first, |b|] + b + more) == Packet(Message(first / 16, first / 2 % 4, OtherBody), 2 + |b|)
  {
    ShortIsFramed(first, b, more);
    hide Parse;
  }

  // ---------------------------------------------------------------- PUBLISH and SUBSCRIBE

  /** A length of 16 bits in network byte order, and as many octets. */
  function Text(s: seq<byte>): seq<byte>
    requires |s| < 65536
  {
    [|s| / 256, |s| % 256] + s
  }

  function Two(n: nat): seq<byte>
    requires n < 65536
  {
    [n / 256, n % 256]
  }

  lemma TextIsPut(s: seq<byte>)
    requires |s| < 65536
    ensures PutString(s) == Text(s)
  {
  }

  lemma TwoIsPut(n: nat)
    requires n < 65536
    ensures Put16(n) == Two(n)
  {
  }

  /** A publication has an identifier exactly if its quality of service is not zero. */
  lemma PublishIsRead(flags: nat, topic: seq<byte>, id: nat, payload: seq<byte>, more: seq<byte>)
    requires flags < 16 && |topic| < 65536 && id < 65536 && |topic| + |payload| < 0xFFF_0000
    ensures var b := Text(topic) + (if flags / 2 % 4 > 0 then Two(id) else []) + payload;
            Parse([0x30 + flags] + LengthOctets(|b|) + b + more)
            == Packet(Message(3, flags / 2 % 4,
                        PublishBody(topic, if flags / 2 % 4 > 0 then Some(id) else None, payload)),
                 1 + |LengthOctets(|b|)| + |b|)
  {
    hide *;
    var qos := flags / 2 % 4;
    var b := Text(topic) + (if qos > 0 then Two(id) else []) + payload;
    PublishLength(topic, id, qos, payload);
    FirstOfPublish(flags);
    PacketIsFramed(0x30 + flags, b, more);
    TextIsPut(topic);
    TwoIsPut(id);
    PublishReadsBack(topic, id, qos, payload);
    PublishCase(qos, b, b + more);
  }

  lemma FirstOfPublish(flags: nat)
    requires flags < 16
    ensures (0x30 + flags) / 2 % 4 == flags / 2 % 4 && (0x30 + flags) / 16 == 3
  {
  }

  lemma PublishLength(topic: seq<byte>, id: nat, qos: nat, payload: seq<byte>)
    requires |topic| < 65536 && id < 65536
    ensures |Text(topic) + (if qos > 0 then Two(id) else []) + payload| <= 4 + |topic| + |payload|
  {
  }

  lemma PublishCase(qos: nat, b: seq<byte>, seen: seq<byte>)
    ensures ParseBody(3, qos, b, seen) == ParsePublish(b, qos)
  {
    hide ParseConnect, ParsePublish, U16;
  }

  /** What is accepted as a publication is one. */
  lemma PublishIsWritten(b: seq<byte>, qos: nat)
    requires ParsePublish(b, qos).Some?
    ensures match ParsePublish(b, qos).value
            case PublishBody(topic, id, payload) =>
              && |topic| < 65536 && id.Some? == (qos > 0) && (id.Some? ==> id.value < 65536)
              && b == Text(topic) + (if id.Some? then Two(id.value) else []) + payload
            case _ => false
  {
    hide TakeString, PutString, U16, Text, Two, Put16;
    var (topic, r) := TakeString(b).value;
    TextIsPut(topic);
    TakenIsText(b);
    if qos > 0 {
      TwoInFront(r);
      Assoc(Text(topic), Two(U16(r)), r[2..]);
    } else {
      assert Text(topic) + [] == Text(topic);
    }
  }

  lemma TakenIsText(b: seq<byte>)
    requires TakeString(b).Some?
    ensures var (topic, r) := TakeString(b).value; |topic| < 65536 && b == Text(topic) + r
  {
    var (topic, r) := TakeString(b).value;
    TextIsPut(topic);
    hide TakeString, U16;
  }

  lemma TwoInFront(r: seq<byte>)
    requires |r| >= 2
    ensures r == Two(U16(r)) + r[2..]
  {
  }

  /** A subscription: the identifier, and the topics left as they are. */
  lemma SubscribeIsRead(flags: nat, hi: byte, lo: byte, topics: seq<byte>, more: seq<byte>)
    requires flags < 16 && |topics| < 0xFFF_FFFE
    ensures var b := [hi, lo] + topics;
            Parse([0x80 + flags] + LengthOctets(|b|) + b + more)
            == Packet(Message(8, flags / 2 % 4, SubscribeBody(hi as nat * 256 + lo, topics)),
                 1 + |LengthOctets(|b|)| + |b|)
  {
    var b := [hi, lo] + topics;
    assert (0x80 + flags) / 2 % 4 == flags / 2 % 4 && (0x80 + flags) / 16 == 8;
    PacketIsFramed(0x80 + flags, b, more);
    assert b[2..] == topics && U16(b) == hi as nat * 256 + lo;
    assert ParseBody(8, flags / 2 % 4, b, b + more) == Some(SubscribeBody(U16(b), b[2..]));
    hide *;
  }

  lemma ShortSubscribeIsMalformed(flags: nat, b: seq<byte>, more: seq<byte>)
    requires flags < 16 && |b| < 2
    ensures Parse([0x80 + flags, |b|] + b + more) == Malformed
  {
    ShortIsFramed(0x80 + flags, b, more);
    hide Parse;
  }

  /** A topic of a subscription and its quality of service; the next position is the one behind them. */
  lemma TopicIsRead(before: seq<byte>, topic: seq<byte>, qos: byte, rest: seq<byte>)
    requires |topic| < 65536
    ensures NextTopic(before + (Text(topic) + [qos] + rest), |before|) == Some((topic, qos, |before| + 3 + |topic|))
  {
    TextIsPut(topic);
    NextReadsBack(before, (topic, qos), rest);
    hide NextTopic;
  }

  // ---------------------------------------------------------------- CONNECT

  function TextIf(s: Option<seq<byte>>): seq<byte>
    requires Short(s)
  {
    match s
    case None => []
    case Some(x) => Text(x)
  }

  /** Section 3.1: the strings of the payload come in this order, each only if its flag is set. */
  function ConnectLayout(b: Body): seq<byte>
    requires b.ConnectBody? && Strings16(b)
  {
    Text(b.protocol) + [b.version, b.flags] + Two(b.keepAlive) + Text(b.clientId)
      + TextIf(b.willTopic) + TextIf(b.willMessage) + TextIf(b.userName) + TextIf(b.password)
  }

  /** Bit 2 announces the will, bit 7 the user name and bit 6 the password. */
  predicate Announced(b: Body)
    requires b.ConnectBody?
  {
    && (b.willTopic.Some? <==> b.flags / 4 % 2 == 1) && (b.willMessage.Some? <==> b.flags / 4 % 2 == 1)
    && (b.userName.Some? <==> b.flags / 128 % 2 == 1) && (b.password.Some? <==> b.flags / 64 % 2 == 1)
  }

  lemma LayoutIsPut(b: Body)
    requires b.ConnectBody? && Strings16(b)
    ensures ConnectOctets(b) == ConnectLayout(b) && (FlagsTell(b) <==> Announced(b))
  {
    TextIsPut(b.protocol);
    TextIsPut(b.clientId);
    IfIsPut(b.willTopic);
    IfIsPut(b.willMessage);
    IfIsPut(b.userName);
    IfIsPut(b.password);
    assert Two(b.keepAlive) == Put16(b.keepAlive);
    hide Put16, PutString, PutIf, Text, TextIf, Two;
    RegroupTail(Text(b.protocol) + [b.version, b.flags] + Two(b.keepAlive) + Text(b.clientId),
      TextIf(b.willTopic), TextIf(b.willMessage), TextIf(b.userName), TextIf(b.password));
  }

  lemma IfIsPut(s: Option<seq<byte>>)
    requires Short(s)
    ensures PutIf(s) == TextIf(s)
  {
    if s.Some? {
      TextIsPut(s.value);
    }
  }

  lemma RegroupTail(a: seq<byte>, b: seq<byte>, c: seq<byte>, d: seq<byte>, e: seq<byte>)
    ensures a + (b + c + d + e) == a + b + c + d + e
  {
  }

  /** Octets are accepted as the body of a CONNECT exactly if they are the layout of what they are read as. */
  lemma ConnectIsReadExactly(octets: seq<byte>, b: Body)
    ensures ParseConnect(octets) == Some(b)
            <==> b.ConnectBody? && Strings16(b) && Announced(b) && octets == ConnectLayout(b)
  {
    if b.ConnectBody? && Strings16(b) && Announced(b) && octets == ConnectLayout(b) {
      LayoutIsPut(b);
      ConnectReadsBack(b);
    }
    if ParseConnect(octets) == Some(b) {
      ConnectIsWritten(octets);
      LayoutIsPut(b);
    }
    hide *;
  }

  lemma ConnectIsWritten(octets: seq<byte>)
    requires ParseConnect(octets).Some?
    ensures var b := ParseConnect(octets).value;
            b.ConnectBody? && Strings16(b) && FlagsTell(b) && octets == ConnectOctets(b)
  {
    hide ParseOptions, TakeString, PutString, PutIf, Put16, U16, HasBit;
    var (protocol, r) := TakeString(octets).value;
    var (client, r1) := TakeString(r[4..]).value;
    var b := ParseConnect(octets).value;
    TakenIsPut(octets);
    TakenIsPut(r[4..]);
    OptionsAreWritten(protocol, r[0], r[1], U16(r[2..]), client, r1);
    var tail := PutIf(b.willTopic) + PutIf(b.willMessage) + PutIf(b.userName) + PutIf(b.password);
    FixedIsWritten(r);
    RegroupConnect(PutString(protocol), [r[0], r[1]], Put16(U16(r[2..])), PutString(client), tail);
  }

  lemma TakenIsPut(s: seq<byte>)
    requires TakeString(s).Some?
    ensures var (x, r) := TakeString(s).value; |x| < 65536 && s == PutString(x) + r
  {
    hide TakeString;
  }

  lemma FixedIsWritten(r: seq<byte>)
    requires |r| >= 4
    ensures U16(r[2..]) < 65536 && r == [r[0], r[1]] + Put16(U16(r[2..])) + r[4..]
  {
    assert Put16(U16(r[2..])) == [r[2], r[3]];
  }

  lemma IfIsWritten(s: seq<byte>, there: bool)
    requires TakeIf(s, there).Some?
    ensures var (x, r) := TakeIf(s, there).value;
            s == PutIf(x) + r && x.Some? == there && Short(x)
  {
    if !there {
      assert [] + s == s;
    }
    hide TakeString, Put16;
  }

  lemma OptionsAreWritten(protocol: seq<byte>, version: byte, flags: byte, keepAlive: nat, client: seq<byte>,
                          r1: seq<byte>)
    requires ParseOptions(protocol, version, flags, keepAlive, client, r1).Some?
    ensures var b := ParseOptions(protocol, version, flags, keepAlive, client, r1).value;
            && b.ConnectBody? && b.protocol == protocol && b.version == version && b.flags == flags
            && b.keepAlive == keepAlive && b.clientId == client && FlagsTell(b)
            && Short(b.willTopic) && Short(b.willMessage) && Short(b.userName) && Short(b.password)
            && r1 == PutIf(b.willTopic) + PutIf(b.willMessage) + PutIf(b.userName) + PutIf(b.password)
  {
    hide TakeIf, PutIf, HasBit, Short;
    var will, user, pass := HasBit(flags, WILL), HasBit(flags, USER_NAME), HasBit(flags, PASSWORD);
    var (a, r2) := TakeIf(r1, will).value;
    var (b, r3) := TakeIf(r2, will).value;
    var (c, r4) := TakeIf(r3, user).value;
    var (d, r5) := TakeIf(r4, pass).value;
    IfIsWritten(r1, will);
    IfIsWritten(r2, will);
    IfIsWritten(r3, user);
    IfIsWritten(r4, pass);
    RegroupFour(PutIf(a), PutIf(b), PutIf(c), PutIf(d));
  }

  function ExampleOctets(keepAlive: seq<byte>): seq<byte> {
    [0, 4, 77, 81, 84, 84] + [4, 0xC6] + keepAlive
      + [0, 1, 97] + [0, 1, 98] + [0, 1, 99] + [0, 1, 100] + [0, 1, 101]
  }

  lemma ExampleLayout(keepAlive: nat, hi: byte, lo: byte)
    requires keepAlive == hi as nat * 256 + lo
    ensures var body := ConnectBody([77, 81, 84, 84], 4, 0xC6, keepAlive, [97], Some([98]), Some([99]), Some([100]),
                          Some([101]));
            && Strings16(body) && Announced(body)
            && ConnectLayout(body) == ExampleOctets([hi, lo])
  {
    var p: seq<byte> := [77, 81, 84, 84];
    assert Text(p) == [0, 4, 77, 81, 84, 84] && Two(keepAlive) == [hi, lo];
    OneLetter(97);
    OneLetter(98);
    OneLetter(99);
    OneLetter(100);
    OneLetter(101);
    hide Text, Two;
  }

  lemma OneLetter(c: byte)
    ensures Text([c]) == [0, 1, c]
  {
  }

  /** A CONNECT packet with all of its strings. */
  lemma ConnectExample(more: seq<byte>)
    ensures Parse([0x10, 25] + ExampleOctets([0, 60]) + more)
            == Packet(Message(1, 0, ConnectBody([77, 81, 84, 84], 4, 0xC6, 60, [97], Some([98]), Some([99]),
                                      Some([100]), Some([101]))), 27)
  {
    var body := ConnectBody([77, 81, 84, 84], 4, 0xC6, 60, [97], Some([98]), Some([99]), Some([100]), Some([101]));
    hide *;
    ExampleLayout(60, 0, 60);
    ExampleLength([0, 60]);
    ConnectIsReadExactly(ExampleOctets([0, 60]), body);
    ShortConnect(ExampleOctets([0, 60]), body, more);
  }

  lemma ExampleLength(keepAlive: seq<byte>)
    ensures |ExampleOctets(keepAlive)| == 23 + |keepAlive|
  {
  }

  lemma ShortConnect(octets: seq<byte>, body: Body, more: seq<byte>)
    requires ParseConnect(octets) == Some(body) && |octets| < 128
    ensures Parse([0x10, |octets|] + octets + more) == Packet(Message(1, 0, body), 2 + |octets|)
  {
    hide Parse, ParseBody, ParseConnect;
    ShortIsFramed(0x10, octets, more);
    ConnectCase(0, octets, octets + more);
  }

  // ---------------------------------------------------------------- what the senders write

  /** The header and the remaining length go in front of the body, behind what was to be sent before. */
  lemma PublishIsSent(send: seq<byte>, topic: seq<byte>, id: nat, flags: nat, data: seq<byte>)
    requires flags < 16 && |topic| < 65536 && id < 65536
    ensures var b := Text(topic) + (if flags / 2 % 4 > 0 then Two(id) else []) + data;
            Publish(send, topic, id, flags, data) == send + ([0x30 + flags] + LengthOctets(|b|) + b)
  {
    hide Prepend, LengthOctets, PutString, Text, Two, Put16, Framed;
    var b := PublishOctets(topic, id, flags, data);
    TextIsPut(topic);
    TwoIsPut(id);
    PrependIsFramed(send, b, 3, flags);
    FramedIs(3, flags, b);
  }

  lemma SubscribeIsSent(send: seq<byte>, topics: seq<Topic>, id: nat)
    requires id < 65536
    ensures var b := Two(id) + TopicOctets(topics);
            Subscribe(send, topics, id) == send + ([0x82] + LengthOctets(|b|) + b)
  {
    PrependIsFramed(send, Two(id) + TopicOctets(topics), 8, 2);
    hide Prepend, LengthOctets, TopicOctets;
  }

  lemma TopicIsSent(topic: seq<byte>, qos: byte, topics: seq<Topic>)
    requires |topic| < 65536
    ensures TopicOctets([(topic, qos)] + topics) == Text(topic) + [qos] + TopicOctets(topics)
  {
    TextIsPut(topic);
    assert ([(topic, qos)] + topics)[1..] == topics;
  }

  /** The first octets are 0x40, 0x50, 0x62, 0x70 and 0x92. */
  lemma AckIsSent(send: seq<byte>, id: nat, codes: seq<byte>)
    requires id < 65536
    ensures Acknowledge(send, 4, id, []) == send + [0x40, 2, id / 256, id % 256]
    ensures Acknowledge(send, 5, id, []) == send + [0x50, 2, id / 256, id % 256]
    ensures Acknowledge(send, 6, id, []) == send + [0x62, 2, id / 256, id % 256]
    ensures Acknowledge(send, 7, id, []) == send + [0x70, 2, id / 256, id % 256]
    ensures Acknowledge(send, 9, id, codes) == send + ([0x92] + LengthOctets(2 + |codes|) + (Two(id) + codes))
  {
    hide *;
    ShortAckIsSent(send, 4, id);
    ShortAckIsSent(send, 5, id);
    ShortAckIsSent(send, 6, id);
    ShortAckIsSent(send, 7, id);
    SubackIsSent(send, id, codes);
  }

  lemma SubackIsSent(send: seq<byte>, id: nat, codes: seq<byte>)
    requires id < 65536
    ensures Acknowledge(send, 9, id, codes) == send + ([0x92] + LengthOctets(2 + |codes|) + (Two(id) + codes))
  {
    hide Prepend, LengthOctets, Put16, Two;
    TwoIsPut(id);
    PrependIsFramed(send, Two(id) + codes, 9, 2);
    assert |Two(id) + codes| == 2 + |codes| by { TwoLength(id); }
  }

  lemma TwoLength(n: nat)
    requires n < 65536
    ensures |Two(n)| == 2
  {
  }

  lemma ShortAckIsSent(send: seq<byte>, cmd: nat, id: nat)
    requires cmd in {4, 5, 6, 7} && id < 65536
    ensures Acknowledge(send, cmd, id, [])
            == send + [cmd * 16 + (if cmd == 6 then 2 else 0), 2, id / 256, id % 256]
  {
    var b := Two(id);
    assert Put16(id) + [] == b;
    PrependIsFramed(send, b, cmd, AckFlags(cmd));
    LastOctet(2);
    hide Prepend, LengthOctets;
    assert [cmd * 16 + AckFlags(cmd)] + [2] + b == [cmd * 16 + AckFlags(cmd), 2, id / 256, id % 256];
  }

  /** The flags that are sent: those asked for, and those of the strings that are given. */
  lemma FlagsAreSent(o: Options)
    requires o.flags == 0
    ensures SentFlags(o) == (if o.userName.Some? then 0x80 else 0) + (if o.password.Some? then 0x40 else 0)
                            + (if o.willTopic.Some? && o.willMessage.Some? then 0x04 else 0)
  {
  }

  /** The handshake without and with all of the strings. */
  lemma HandshakeExamples()
    ensures Handshake([], [97], Options(0, 0, None, None, None, None))
            == [0x10, 13] + ([0, 4, 77, 81, 84, 84] + [4, 0] + [0, 60] + [0, 1, 97])
    ensures Handshake([], [97], Options(2, 300, Some([98]), Some([99]), Some([100]), Some([101])))
            == [0x10, 25] + ExampleOctets([1, 44])
  {
    var full := Options(2, 300, Some([98]), Some([99]), Some([100]), Some([101]));
    var body := ConnectBody([77, 81, 84, 84], 4, 0xC6, 300, [97], Some([98]), Some([99]), Some([100]), Some([101]));
    hide *;
    FullSent();
    ExampleLayout(300, 1, 44);
    LayoutIsPut(body);
    ShortHandshake([97], full, ExampleOctets([1, 44]));
    PlainIsSent();
    ShortHandshake([97], Options(0, 0, None, None, None, None),
      [0, 4, 77, 81, 84, 84] + [4, 0] + [0, 60] + [0, 1, 97]);
  }

  lemma FullSent()
    ensures var o := Options(2, 300, Some([98]), Some([99]), Some([100]), Some([101]));
            && OptionsFit(o)
            && Sent(o, [97]) == ConnectBody([77, 81, 84, 84], 4, 0xC6, 300, [97], Some([98]), Some([99]), Some([100]),
                                  Some([101]))
  {
  }

  lemma PlainIsSent()
    ensures var o := Options(0, 0, None, None, None, None);
            && OptionsFit(o)
            && ConnectOctets(Sent(o, [97])) == [0, 4, 77, 81, 84, 84] + [4, 0] + [0, 60] + [0, 1, 97]
  {
    var b := ConnectBody([77, 81, 84, 84], 4, 0, 60, [97], None, None, None, None);
    assert Sent(Options(0, 0, None, None, None, None), [97]) == b;
    OneLetter(97);
    var p: seq<byte> := [77, 81, 84, 84];
    assert Text(p) == [0, 4, 77, 81, 84, 84] && Two(60) == [0, 60];
    hide ConnectOctets, Text, Two;
    LayoutIsPut(b);
  }

  lemma ShortHandshake(clientId: seq<byte>, o: Options, octets: seq<byte>)
    requires OptionsFit(o) && ConnectOctets(Sent(o, clientId)) == octets && |octets| < 128
    ensures Handshake([], clientId, o) == [0x10, |octets|] + octets
  {
    hide Prepend, LengthOctets, ConnectOctets, Sent, OptionsFit;
    SmallRemainder(|octets|);
    PrependIsFramed([], octets, 1, 0);
    LastOctet(|octets|);
    ShortFrame(octets);
  }

  lemma ShortFrame(octets: seq<byte>)
    requires |octets| < 128
    ensures [] + Framed(1, 0, octets) == [0x10, |octets|] + octets && [] + octets == octets
  {
    LastOctet(|octets|);
    hide LengthOctets;
    assert [0x10] + [|octets|] == [0x10, |octets|];
  }
}
