/**
 * The MQTT side of struct mg_connection: mqtt_handler takes packets off the receive buffer,
 * mg_mqtt_prepend_header and its callers fill the send buffer.
 */
module MqttConnection {
  import opened Bytes
  import opened Mqtt
  import opened MqttStream

  class MqttConnection {
    var recv: seq<byte>
    var send: seq<byte>
    var events: seq<Message>
    /** MG_F_CLOSE_IMMEDIATELY. */
    var closing: bool
    const limit: nat
    /** What each read has brought so far. */
    ghost var pieces: seq<seq<byte>>

    constructor (limit: nat)
      ensures Valid() && pieces == [] && send == [] && this.limit == limit && !closing
    {
      recv, send, events, closing, pieces := [], [], [], false, [];
      this.limit := limit;
    }

    /** The messages and what is left are those of the reads one by one. */
    ghost predicate Valid()
      reads this
    {
      var d := Feed(pieces);
      && events == d.messages && recv == d.rest
      && (closing <==> d.malformed || (limit > 0 && |recv| >= limit))
    }

    /** The loop of parse_mqtt over the octets of the remaining length. */
    static method DecodeLength(io: seq<byte>) returns (l: Length)
      requires |io| >= 2
      ensures l == ScanLength(io[1..], 0)
    {
      var len: nat, weight: nat, lenLen: nat := 0, 1, 0;
      var p: nat := 1;
      while p < |io|
        invariant 1 <= p <= |io| && p == 1 + lenLen && lenLen <= 4
        invariant ScanLength(io[1..], 0) == Onward(ScanLength(io[p..], lenLen), len, weight, lenLen)
        decreases |io| - p
      {
        var lc: nat := io[p];
        NextOctet(io[p..], len, weight, lenLen);
        assert io[p..][1..] == io[p + 1..];
        hide ScanLength, Onward;
        p := p + 1;
        len := len + lc % 0x80 * weight;
        lenLen := lenLen + 1;
        if lc < 0x80 {
          return Length(len, lenLen);
        }
        if lenLen > 4 {
          return TooLong;
        }
        weight := weight * 0x80;
      }
      return NeedMore;
    }

    /** parse_mqtt. */
    static method ParseMqtt(io: seq<byte>) returns (p: Parsed)
      ensures p == Parse(io)
    {
      hide ScanLength, ParseSized, ParseBy, Parse;
      ParseIsBy(io);
      if |io| < 2 {
        return Incomplete;
      }
      var l := DecodeLength(io);
      p := ParseRest(io, l);
    }

    static method ParseRest(io: seq<byte>, l: Length) returns (p: Parsed)
      requires |io| >= 2 && (l.Length? ==> 0 < l.used < |io|)
      ensures p == ParseBy(io, l)
    {
      hide ParseSized;
      if l == TooLong {
        return Malformed;
      }
      if l == NeedMore {
        return Incomplete;
      }
      p := ParseOwn(io, 1 + l.used, 1 + l.used + l.n);
    }

    /** The part of parse_mqtt behind the remaining length: end is where the packet ends. */
    static method ParseOwn(io: seq<byte>, from: nat, end: nat) returns (p: Parsed)
      requires 2 <= from <= |io| && from <= end
      ensures p == ParseSized(io, from, end)
    {
      hide ParseBody;
      if end > |io| {
        return Incomplete;
      }
      var cmd, qos := io[0] / 16, Qos(io[0]);
      var b := ParseCase(cmd, qos, io, from, end);
      p := if b == None then Malformed else Packet(Message(cmd, qos, b.value), end);
    }

    /** The switch of parse_mqtt, on the octets from from to end. */
    static method ParseCase(cmd: nat, qos: nat, io: seq<byte>, from: nat, end: nat) returns (b: Option<Body>)
      requires from <= end <= |io|
      ensures b == ParseBody(cmd, qos, io[from..end], io[from..])
    {
      hide ParseConnect, ParsePublish, U16;
      if cmd == CONNECT {
        b := ParseConnectAt(io, from, end);
      } else if cmd == CONNACK {
        b := if end - from < 2 then None else Some(ConnackBody(io[from + 1]));
      } else if IsAck(cmd) {
        b := Some(AckBody(if from + 2 > |io| then None else Some(U16(io[from..]))));
      } else if cmd == PUBLISH {
        b := ParsePublishAt(io, from, end, qos);
      } else if cmd == SUBSCRIBE {
        b := ParseSubscribeAt(io, from, end);
      } else {
        b := Some(OtherBody);
      }
    }

    static method ParseSubscribeAt(io: seq<byte>, from: nat, end: nat) returns (b: Option<Body>)
      requires from <= end <= |io|
      ensures var own := io[from..end]; b == if |own| < 2 then None else Some(SubscribeBody(U16(own), own[2..]))
    {
      if end - from < 2 {
        return None;
      }
      assert io[from..end][2..] == io[from + 2..end];
      b := Some(SubscribeBody(U16(io[from..]), io[from + 2..end]));
    }

    /** getu16, of octets that may lie behind the buffer: what they hold is unknown. */
    static method GetU16(s: seq<byte>, p: nat) returns (n: nat)
      ensures n < 65536 && (p + 2 <= |s| ==> n == U16(s[p..]))
    {
      if p + 2 <= |s| {
        n := U16(s[p..]);
      } else {
        n := *;
        n := n % 65536;
      }
    }

    /** scanto: the string starts behind its length and ends at next, be that inside the packet or not. */
    static method ScanTo(io: seq<byte>, p: nat, ghost end: nat) returns (next: nat)
      requires p <= end <= |io|
      ensures p + 2 <= next
      ensures TakeString(io[p..end]) == if next <= end then Some((io[p + 2..next], io[next..end])) else None
    {
      var len := GetU16(io, p);
      next := p + 2 + len;
      ScannedIs(io, p, end, len);
    }

    /** A string that is there only if its flag is set. */
    static method ScanIf(io: seq<byte>, p: nat, end: nat, there: bool)
      returns (bad: bool, s: Option<seq<byte>>, next: nat)
      requires end <= |io|
      ensures bad ==> p > end || TakeIf(io[p..end], there) == None
      ensures !bad ==> p <= next && (p > end ==> next > end)
      ensures !bad && p <= end ==>
                TakeIf(io[p..end], there) == if next <= end then Some((s, io[next..end])) else None
    {
      hide TakeString;
      bad, s, next := false, None, p;
      if there {
        if p >= end {
          NothingToTake(io, p, end);
          return true, s, next;
        }
        next := ScanTo(io, p, end);
        s := Some(if next <= end then io[p + 2..next] else []);
      }
    }

    /** The case of CONNECT up to the client identifier. */
    static method ParseConnectAt(io: seq<byte>, from: nat, end: nat) returns (b: Option<Body>)
      requires from <= end <= |io|
      ensures b == ParseConnect(io[from..end])
    {
      hide ParseOptions, TakeString;
      var p := ScanTo(io, from, end);
      if p + 4 > end {
        return None;
      }
      var protocol, version, flags := io[from + 2..p], io[p], io[p + 1];
      var keepAlive := GetU16(io, p + 2);
      FixedIs(io, p, end);
      p := p + 4;
      if p >= end {
        return None;
      }
      var next := ScanTo(io, p, end);
      if next > end {
        return None;
      }
      b := ParseOptionsAt(io, next, end, protocol, version, flags, keepAlive, io[p + 2..next]);
    }

    /** The four strings that the flags announce; nothing may be left. */
    static method ParseOptionsAt(io: seq<byte>, p: nat, end: nat, protocol: seq<byte>, version: byte, flags: byte,
                                 keepAlive: nat, client: seq<byte>) returns (b: Option<Body>)
      requires p <= end <= |io|
      ensures b == ParseOptions(protocol, version, flags, keepAlive, client, io[p..end])
    {
      hide TakeIf, HasBit;
      var bad, topic, p1 := ScanIf(io, p, end, HasBit(flags, WILL));
      if bad {
        return None;
      }
      var message, p2;
      bad, message, p2 := ScanIf(io, p1, end, HasBit(flags, WILL));
      if bad {
        return None;
      }
      var user, p3;
      bad, user, p3 := ScanIf(io, p2, end, HasBit(flags, USER_NAME));
      if bad {
        return None;
      }
      var password, p4;
      bad, password, p4 := ScanIf(io, p3, end, HasBit(flags, PASSWORD));
      if bad || p4 != end {
        return None;
      }
      assert io[p4..end] == [];
      b := Some(ConnectBody(protocol, version, flags, keepAlive, client, topic, message, user, password));
    }

    /** The case of PUBLISH. */
    static method ParsePublishAt(io: seq<byte>, from: nat, end: nat, qos: nat) returns (b: Option<Body>)
      requires from <= end <= |io|
      ensures b == ParsePublish(io[from..end], qos)
    {
      hide TakeString;
      var p := ScanTo(io, from, end);
      if p > end {
        return None;
      }
      var topic := io[from + 2..p];
      if qos > 0 {
        if end - p < 2 {
          return None;
        }
        var id := GetU16(io, p);
        assert io[p..end][2..] == io[p + 2..end];
        return Some(PublishBody(topic, Some(id), io[p + 2..end]));
      }
      return Some(PublishBody(topic, None, io[p..end]));
    }

    /** mg_mqtt_next_subscribe_topic; None stands for -1. */
    static method NextSubscribeTopic(payload: seq<byte>, pos: nat) returns (r: Option<(seq<byte>, byte, nat)>)
      ensures r == NextTopic(payload, pos)
    {
      if pos >= |payload| {
        return None;
      }
      hide TakeString;
      assert payload[pos..|payload|] == payload[pos..];
      var next := ScanTo(payload, pos, |payload|);
      var newPos := next + 1;
      if newPos > |payload| {
        return None;
      }
      return Some((payload[pos + 2..next], payload[next], newPos));
    }

    /** mqtt_handler on MG_EV_RECV: all packets in the buffer, one after the other. */
    method Receive(more: seq<byte>)
      requires Valid() && !closing
      modifies this`recv, this`events, this`closing, this`pieces
      ensures Valid() && pieces == old(pieces) + [more]
    {
      ghost var d := Resume(Feed(pieces), more);
      FeedMore(pieces, more);
      hide Parse, Drain;
      pieces := pieces + [more];
      recv := recv + more;
      AfterTwice(events, [], Drain(recv));
      var looping := true;
      while looping
        invariant pieces == old(pieces) + [more]
        invariant looping ==> d == After(events, Drain(recv)) && !closing
        invariant !looping ==> d == Drained(events, recv, d.malformed)
        invariant !looping ==> (closing <==> d.malformed || (limit > 0 && |recv| >= limit))
        decreases looping, |recv|
      {
        var p := ParseMqtt(recv);
        DrainStep(recv);
        PacketFits(recv);
        match p
        case Malformed =>
          closing := true;
          looping := false;
        case Incomplete =>
          if limit > 0 && |recv| >= limit {
            closing := true;
          }
          looping := false;
        case Packet(m, n) =>
          AfterTwice(events, [m], Drain(recv[n..]));
          events := events + [m];
          recv := recv[n..];
      }
    }

    /** The messages are those of the whole stream, unless an acknowledgement took its identifier from behind itself. */
    lemma MessagesOfStream()
      requires Valid() && Settled(Concat(pieces))
      ensures var d := Drain(Concat(pieces)); events == d.messages && recv == d.rest
    {
      FeedDrains(pieces);
      hide Drain, Settled;
    }

    // ---------------------------------------------------------------- sending

    /** mg_mqtt_prepend_header: the header goes in front of the last len octets. */
    method PrependHeader(cmd: nat, flags: nat, len: nat)
      requires len <= |send| && cmd < 16 && flags < 16
      modifies this`send
      ensures send == Prepend(old(send), cmd, flags, len)
    {
      var off := |send| - len;
      var buf: seq<byte> := [cmd * 16 + flags];
      var left, more := len, true;
      while more
        invariant more ==> buf + LengthOctets(left) == [cmd * 16 + flags] + LengthOctets(len)
        invariant !more ==> buf == [cmd * 16 + flags] + LengthOctets(len)
        decreases more, left
      {
        var octet: nat := left % 0x80;
        ghost var was, before := left, buf;
        left := left / 0x80;
        if left > 0 {
          octet := octet + 0x80;
        }
        buf := buf + [octet];
        more := left > 0;
        assert before + ([octet] + LengthOctets(left)) == buf + LengthOctets(left);
        assert before + [octet] == buf;
      }
      send := send[..off] + buf + send[off..];
    }

    /** mg_mqtt_publish. */
    method SendPublish(topic: seq<byte>, id: nat, flags: nat, data: seq<byte>)
      requires flags < 16
      modifies this`send
      ensures send == Publish(old(send), topic, id, flags, data)
    {
      var oldLen := |send|;
      send := send + Put16(|topic|);
      send := send + topic;
      if Qos(flags) > 0 {
        send := send + Put16(id);
      }
      send := send + data;
      assert send == old(send) + PublishOctets(topic, id, flags, data);
      PrependHeader(PUBLISH, flags, |send| - oldLen);
    }

    /** mg_send_mqtt_short_command, and mg_mqtt_suback with its codes. */
    method SendAcknowledge(cmd: nat, id: nat, codes: seq<byte>)
      requires IsAck(cmd)
      modifies this`send
      ensures send == Acknowledge(old(send), cmd, id, codes)
    {
      send := send + Put16(id);
      for i := 0 to |codes|
        invariant send == old(send) + Put16(id) + codes[..i]
      {
        send := send + [codes[i]];
      }
      assert send == old(send) + (Put16(id) + codes);
      PrependHeader(cmd, AckFlags(cmd), 2 + |codes|);
    }

    /** mg_mqtt_subscribe. */
    method SendSubscribe(topics: seq<Topic>, id: nat)
      modifies this`send
      ensures send == Subscribe(old(send), topics, id)
    {
      hide Put16, TopicOctets;
      var oldLen := |send|;
      send := send + Put16(id);
      ghost var start := send;
      NoTopics(topics);
      for i := 0 to |topics|
        invariant send + TopicOctets(topics[i..]) == start + TopicOctets(topics)
      {
        NextTopicOctets(send, topics, i);
        send := send + Put16(|topics[i].0|);
        send := send + topics[i].0;
        send := send + [topics[i].1];
      }
      SubscribedOctets(old(send), Put16(id), TopicOctets(topics), send);
      PrependHeader(SUBSCRIBE, 2, |send| - oldLen);
    }

    /** A string behind its length, both as far as 16 bits say; total is the length sent so far, in 16 bits. */
    method SendString(s: seq<byte>, total: nat, ghost start: nat) returns (r: nat)
      requires start <= |send| && total == (|send| - start) % 65536
      modifies this`send
      ensures send == old(send) + PutString(Cut(s))
      ensures r == (|send| - start) % 65536
    {
      var len := |s| % 65536;
      send := send + Put16(len);
      send := send + s[..len];
      assert send == old(send) + PutString(Cut(s));
      AddShort(|old(send)| - start, 2 + len);
      r := (total + 2 + len) % 65536;
    }

    /** A string if its flag is set. */
    method SendIf(s: Option<seq<byte>>, there: bool, total: nat, ghost start: nat) returns (r: nat)
      requires (there ==> s.Some?) && start <= |send| && total == (|send| - start) % 65536
      modifies this`send
      ensures send == old(send) + PutIf(CutIf(if there then s else None))
      ensures r == (|send| - start) % 65536
    {
      hide PutString, Cut;
      r := total;
      if there {
        r := SendString(s.value, total, start);
      }
    }

    /** The flags of a handshake; a keep-alive of zero stands for a minute. */
    method SendFixed(o: Options) returns (flags: byte)
      modifies this`send
      ensures flags == SentFlags(o)
      ensures send == old(send) + FixedOctets(o)
    {
      hide SetBit, HasBit, Put16;
      send := send + [0, 4] + MQTT + [4];
      flags := o.flags;
      if o.userName.Some? {
        flags := SetBit(flags, USER_NAME, true);
      }
      if o.password.Some? {
        flags := SetBit(flags, PASSWORD, true);
      }
      if o.willTopic.Some? && o.willMessage.Some? {
        flags := SetBit(flags, WILL, true);
      }
      var keepAlive := if o.keepAlive == 0 then 60 else o.keepAlive;
      SetNothing(o);
      send := send + [flags];
      send := send + Put16(keepAlive);
      RegroupFixed(old(send), [0, 4] + MQTT, [4], [flags], Put16(keepAlive));
    }

    /** mg_send_mqtt_handshake_opt. */
    method SendHandshake(clientId: seq<byte>, o: Options)
      requires OptionsFit(o)
      modifies this`send
      ensures send == Handshake(old(send), clientId, o)
    {
      hide Sent, PutIf, CutIf, PutString, Cut, HasBit, SentFlags, FixedOctets;
      ghost var before, start := send, |send|;
      var flags := SendFixed(o);
      FixedLength(o);
      FlagsOf(o);
      var remLen := SendString(clientId, 10, start);
      remLen := SendIf(o.willTopic, HasBit(flags, WILL), remLen, start);
      remLen := SendIf(o.willMessage, HasBit(flags, WILL), remLen, start);
      remLen := SendIf(o.userName, HasBit(flags, USER_NAME), remLen, start);
      remLen := SendIf(o.password, HasBit(flags, PASSWORD), remLen, start);
      HandshakeOctets(before, clientId, o);
      LowRemainder(|send| - start);
      PrependHeader(CONNECT, 0, remLen);
    }
  }

  function FixedOctets(o: Options): seq<byte> {
    [0, 4] + MQTT + [4, SentFlags(o)] + Put16(if o.keepAlive == 0 then 60 else o.keepAlive)
  }

  lemma FixedLength(o: Options)
    ensures |FixedOctets(o)| == 10
  {
  }

  lemma RegroupFixed(a: seq<byte>, b: seq<byte>, c: seq<byte>, d: seq<byte>, e: seq<byte>)
    ensures a + b + c + d + e == a + (b + (c + d) + e)
  {
  }

  lemma SetNothing(o: Options)
    ensures SentFlags(o) == var f := if o.userName.Some? then SetBit(o.flags, USER_NAME, true) else o.flags;
                            var g := if o.password.Some? then SetBit(f, PASSWORD, true) else f;
                            if HasWill(o) then SetBit(g, WILL, true) else g
  {
  }

  lemma FlagsOf(o: Options)
    requires OptionsFit(o)
    ensures HasBit(SentFlags(o), WILL) == HasWill(o)
    ensures HasBit(SentFlags(o), USER_NAME) == o.userName.Some? && HasBit(SentFlags(o), PASSWORD) == o.password.Some?
  {
  }

  lemma AddShort(n: nat, m: nat)
    ensures (n % 65536 + m) % 65536 == (n + m) % 65536
  {
  }

  lemma LowRemainder(n: nat)
    ensures n % 65536 <= n
  {
  }

  /** The pieces of a handshake in the order in which they are sent. */
  lemma HandshakeOctets(before: seq<byte>, clientId: seq<byte>, o: Options)
    ensures before + FixedOctets(o) + PutString(Cut(clientId))
            + PutIf(CutIf(if HasWill(o) then o.willTopic else None))
            + PutIf(CutIf(if HasWill(o) then o.willMessage else None))
            + PutIf(CutIf(o.userName)) + PutIf(CutIf(o.password))
            == before + ConnectOctets(Sent(o, clientId))
  {
    MqttOctets();
    hide PutString, PutIf, CutIf, Cut, SentFlags, Put16;
    var b := Sent(o, clientId);
    Regroup(before, PutString(MQTT), [4, SentFlags(o)], Put16(b.keepAlive), PutString(b.clientId),
      PutIf(b.willTopic), PutIf(b.willMessage), PutIf(b.userName), PutIf(b.password));
  }

  lemma MqttOctets()
    ensures PutString(MQTT) == [0, 4] + MQTT
  {
  }

  lemma Regroup(s: seq<byte>, a: seq<byte>, b: seq<byte>, c: seq<byte>, d: seq<byte>, e: seq<byte>, f: seq<byte>,
                g: seq<byte>, h: seq<byte>)
    ensures s + (a + b + c) + d + e + f + g + h == s + (a + b + c + d + (e + f + g + h))
  {
    var t := s + (a + b + c) + d;
    assert t + e + f + g + h == t + (e + f + g + h);
    assert t == s + (a + b + c + d);
  }

  lemma NoTopics(topics: seq<Topic>)
    ensures topics[0..] == topics && TopicOctets(topics[|topics|..]) == []
  {
  }

  lemma NextTopicOctets(send: seq<byte>, topics: seq<Topic>, i: nat)
    requires i < |topics|
    ensures send + Put16(|topics[i].0|) + topics[i].0 + [topics[i].1] + TopicOctets(topics[i + 1..])
            == send + TopicOctets(topics[i..])
  {
    var t := topics[i];
    assert topics[i..][1..] == topics[i + 1..] && topics[i..][0] == t;
    var octets := TopicOctets(topics[i + 1..]);
    assert TopicOctets(topics[i..]) == PutString(t.0) + [t.1] + octets;
    hide TopicOctets, Put16;
    assert send + Put16(|t.0|) + t.0 + [t.1] + octets == send + ((Put16(|t.0|) + t.0) + [t.1] + octets);
  }

  lemma SubscribedOctets(before: seq<byte>, id: seq<byte>, octets: seq<byte>, send: seq<byte>)
    requires send + [] == before + id + octets
    ensures send == before + (id + octets) && |send| - |before| == |id + octets|
  {
    assert send + [] == send;
    assert before + id + octets == before + (id + octets);
  }

  lemma ParseIsBy(io: seq<byte>)
    ensures |io| < 2 ==> Parse(io) == Incomplete
    ensures |io| >= 2 ==> var l := ScanLength(io[1..], 0);
                          (l.Length? ==> 0 < l.used < |io|) && Parse(io) == ParseBy(io, l)
  {
    if |io| >= 2 { LengthFits(io[1..]); }
    hide ScanLength, ParseBy;
  }

  lemma ScannedIs(io: seq<byte>, p: nat, end: nat, len: nat)
    requires p <= end <= |io| && (p + 2 <= |io| ==> len == U16(io[p..]))
    ensures var next := p + 2 + len;
            TakeString(io[p..end]) == if next <= end then Some((io[p + 2..next], io[next..end])) else None
  {
    var s, next := io[p..end], p + 2 + len;
    if p + 2 <= end {
      assert U16(s) == len;
      if next <= end {
        Slice(io, p, end, 2, 2 + len);
        Slice(io, p, end, 2 + len, end - p);
        assert s[2 + len..] == s[2 + len..end - p];
      }
    }
  }

  lemma NothingToTake(io: seq<byte>, p: nat, end: nat)
    requires end <= |io|
    ensures p >= end ==> p > end || TakeIf(io[p..end], true) == None
  {
  }

  lemma FixedIs(io: seq<byte>, p: nat, end: nat)
    requires p + 4 <= end <= |io|
    ensures var r := io[p..end];
            r[0] == io[p] && r[1] == io[p + 1] && U16(r[2..]) == U16(io[p + 2..]) && r[4..] == io[p + 4..end]
  {
  }

  lemma FeedMore(pieces: seq<seq<byte>>, more: seq<byte>)
    ensures Feed(pieces + [more]) == Resume(Feed(pieces), more)
  {
    assert (pieces + [more])[..|pieces|] == pieces;
    hide Resume;
  }

  lemma NextOctet(s: seq<byte>, len: nat, weight: nat, k: nat)
    requires s != [] && k <= 4
    ensures var l, len' := Onward(ScanLength(s, k), len, weight, k), len + s[0] as nat % 0x80 * weight;
            l == if s[0] < 0x80 then Length(len', k + 1)
                 else if k + 1 > 4 then TooLong
                 else Onward(ScanLength(s[1..], k + 1), len', weight * 0x80, k + 1)
  {
    if s[0] >= 0x80 && k < 4 {
      Weigh(len, weight, s[0] % 0x80, ScanLength(s[1..], k + 1));
    }
  }

  /** What the octets from l on add to len. */
  function Onward(l: Length, len: nat, weight: nat, used: nat): Length {
    if l.Length? then Length(len + weight * l.n, used + l.used) else l
  }

  lemma Weigh(len: nat, weight: nat, low: nat, l: Length)
    ensures l.Length? ==> len + weight * (low + 0x80 * l.n) == len + low * weight + weight * 0x80 * l.n
  {
  }
}
