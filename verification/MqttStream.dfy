/** Streams of MQTT packets as mqtt_handler in mongoose.c takes them apart, and how they are cut into reads. */
module MqttStream {
  import opened Bytes
  import opened Mqtt

  // ---------------------------------------------------------------- all packets in the buffer

  /** The messages handed on, what is left, and whether that is malformed. */
  datatype Drained = Drained(messages: seq<Message>, rest: seq<byte>, malformed: bool)

  function Drain(s: seq<byte>): Drained
    decreases |s|
  {
    match Parse(s)
    case Incomplete => Drained([], s, false)
    case Malformed => Drained([], s, true)
    case Packet(m, n) => After([m], Drain(s[n..]))
  }

  function After(ms: seq<Message>, d: Drained): Drained { d.(messages := ms + d.messages) }

  lemma AfterTwice(a: seq<Message>, b: seq<Message>, d: Drained)
    ensures After(a, After(b, d)) == After(a + b, d) && After([], d) == d
  {
    assert a + (b + d.messages) == (a + b) + d.messages;
    assert [] + d.messages == d.messages;
  }

  lemma DrainStep(s: seq<byte>)
    ensures var p := Parse(s);
            Drain(s) == if p.Packet? then After([p.message], Drain(s[p.size..])) else Drained([], s, p.Malformed?)
  {
    hide Parse;
  }

  /** What one more read does. */
  function Resume(d: Drained, t: seq<byte>): Drained {
    if d.malformed then d.(rest := d.rest + t) else After(d.messages, Drain(d.rest + t))
  }

  /** What the reads of a connection do, one by one. */
  function Feed(pieces: seq<seq<byte>>): Drained {
    if pieces == [] then Drained([], [], false) else Resume(Feed(pieces[..|pieces| - 1]), pieces[|pieces| - 1])
  }

  lemma ResumeAfter(ms: seq<Message>, d: Drained, t: seq<byte>)
    ensures Resume(After(ms, d), t) == After(ms, Resume(d, t))
  {
    AfterTwice(ms, d.messages, Drain(d.rest + t));
    hide Drain;
  }

  lemma ResumeDrained(s: seq<byte>, t: seq<byte>)
    ensures Resume(Drained([], s, true), t) == Drained([], s + t, true)
    ensures Resume(Drained([], s, false), t) == Drain(s + t)
  {
    AfterTwice([], [], Drain(s + t));
    hide Drain;
  }

  // ---------------------------------------------------------------- identifiers read from the next packet

  /** No acknowledgement in the stream takes its identifier from octets of the stream behind it. */
  predicate Settled(s: seq<byte>)
    decreases |s|
  {
    match Parse(s)
    case Packet(_, n) => !(n < Reach(s) <= |s|) && Settled(s[n..])
    case _ => true
  }

  lemma SettledStep(s: seq<byte>)
    ensures var p := Parse(s);
            Settled(s) == (p.Packet? ==> !(p.size < Reach(s) <= |s|) && Settled(s[p.size..]))
  {
    hide Parse, Reach;
  }

  lemma {:induction false} SettledPrefix(s: seq<byte>, t: seq<byte>)
    requires Settled(s + t)
    ensures Settled(s)
    decreases |s|
  {
    SettledStep(s);
    SettledStep(s + t);
    hide Parse, Reach, Settled;
    if Parse(s).Packet? {
      var n := Parse(s).size;
      PacketFits(s);
      ParseExtendExactly(s, t);
      assert (s + t)[n..] == s[n..] + t;
      SettledPrefix(s[n..], t);
    }
  }

  lemma PacketFits(s: seq<byte>)
    ensures Parse(s).Packet? ==> 0 < Parse(s).size <= |s|
  {
  }

  /** Draining, then draining again when more has arrived, is draining all at once. */
  lemma {:induction false} DrainResumes(s: seq<byte>, t: seq<byte>)
    requires Settled(s + t)
    ensures Drain(s + t) == Resume(Drain(s), t)
    decreases |s|
  {
    DrainStep(s);
    DrainStep(s + t);
    ResumeDrained(s, t);
    SettledStep(s + t);
    PacketFits(s);
    hide Parse, Drain, After, Resume, Reach, Settled;
    if Parse(s) != Incomplete {
      ParseExtendExactly(s, t);
    }
    if Parse(s).Packet? {
      var n := Parse(s).size;
      assert (s + t)[n..] == s[n..] + t;
      DrainResumes(s[n..], t);
      ResumeAfter([Parse(s).message], Drain(s[n..]), t);
    }
  }

  /** Where a stream that is not settled has to be cut to show. */
  lemma {:induction false} Unsettled(w: seq<byte>) returns (k: nat)
    requires !Settled(w)
    ensures k <= |w| && Resume(Drain(w[..k]), w[k..]) != Drain(w)
    decreases |w|
  {
    SettledStep(w);
    PacketFits(w);
    hide Parse, Drain, After, Resume, Reach, Settled;
    var n := Parse(w).size;
    if n < Reach(w) <= |w| {
      k := n;
      CutBehind(w);
    } else {
      var j := Unsettled(w[n..]);
      k := n + j;
      CutLater(w, j);
    }
  }

  lemma CutBehind(w: seq<byte>)
    requires Parse(w).Packet? && Parse(w).size <= |w| && Parse(w).size < Reach(w) <= |w|
    ensures var k := Parse(w).size; Resume(Drain(w[..k]), w[k..]) != Drain(w)
  {
    hide Parse, Drain, After, Resume, Reach;
    var n := Parse(w).size;
    var s, t := w[..n], w[n..];
    assert s + t == w;
    ParseWhole(w, n);
    ParseExtendExactly(s, t);
    DrainStep(s);
    DrainStep(w);
    NothingLeft(s, n);
    ResumeAfter([Parse(s).message], Drained([], [], false), t);
    ResumeDrained([], t);
    assert [] + t == t;
    AfterDiffers([Parse(s).message], [Parse(w).message], Drain(t), Drain(t));
  }

  lemma NothingLeft(s: seq<byte>, n: nat)
    requires n == |s|
    ensures s[n..] == [] && Drain(s[n..]) == Drained([], [], false)
  {
  }

  lemma AfterDiffers(a: seq<Message>, b: seq<Message>, d: Drained, e: Drained)
    requires |a| == |b|
    ensures After(a, d) == After(b, e) <==> a == b && d == e
  {
    assert After(a, d).messages[..|a|] == a && After(b, e).messages[..|b|] == b;
    assert After(a, d).messages[|a|..] == d.messages && After(b, e).messages[|b|..] == e.messages;
  }

  lemma CutLater(w: seq<byte>, j: nat)
    requires Parse(w).Packet? && Parse(w).size <= |w| && !(Parse(w).size < Reach(w) <= |w|)
    requires var t := w[Parse(w).size..]; j <= |t| && Resume(Drain(t[..j]), t[j..]) != Drain(t)
    ensures var k := Parse(w).size + j; Resume(Drain(w[..k]), w[k..]) != Drain(w)
  {
    hide Parse, Drain, After, Resume, Reach;
    var n := Parse(w).size;
    var k, t := n + j, w[n..];
    var s := w[..k];
    assert s + w[k..] == w && s[n..] == t[..j] && w[k..] == t[j..];
    ParseWhole(w, k);
    ParseExtendExactly(s, w[k..]);
    DrainStep(s);
    DrainStep(w);
    ResumeAfter([Parse(s).message], Drain(t[..j]), t[j..]);
    AfterDiffers([Parse(s).message], [Parse(w).message], Resume(Drain(t[..j]), t[j..]), Drain(t));
  }

  // ---------------------------------------------------------------- every cut into reads

  lemma {:induction false} FeedDrains(pieces: seq<seq<byte>>)
    requires Settled(Concat(pieces))
    ensures Feed(pieces) == Drain(Concat(pieces))
    decreases |pieces|
  {
    hide Drain, Settled, Resume;
    if pieces == [] {
      NothingLeft([], 0);
    } else {
      var before, last := pieces[..|pieces| - 1], pieces[|pieces| - 1];
      assert pieces == before + [last];
      ConcatLast(before, last);
      SettledPrefix(Concat(before), last);
      FeedDrains(before);
      DrainResumes(Concat(before), last);
    }
  }

  lemma FeedTwo(s: seq<byte>, t: seq<byte>)
    ensures Feed([s, t]) == Resume(Drain(s), t) && Concat([s, t]) == s + t
  {
    hide Drain, Resume;
    var none: seq<seq<byte>> := [];
    assert [s, t][..1] == [s] && [s][..0] == none && [s, t][1..] == [t] && [t][1..] == none;
    assert Feed([s]) == Resume(Feed(none), s);
    ResumeDrained([], s);
    assert Concat([t]) == t + [] == t;
    assert [] + s == s;
  }

  /**
   * However a stream is cut into reads, the messages and what is left are those of the whole of it: this
   * is so exactly of the streams in which no acknowledgement takes its identifier from behind itself.
   */
  lemma ReadsDoNotMatterExactly(w: seq<byte>)
    ensures (forall pieces :: Concat(pieces) == w ==> Feed(pieces) == Drain(w)) <==> Settled(w)
  {
    hide Drain, Settled, Feed, Concat, Resume;
    if Settled(w) {
      forall pieces | Concat(pieces) == w
        ensures Feed(pieces) == Drain(w)
      {
        FeedDrains(pieces);
      }
    } else {
      var k := Unsettled(w);
      FeedTwo(w[..k], w[k..]);
      assert w[..k] + w[k..] == w;
      assert Concat([w[..k], w[k..]]) == w;
    }
  }

  /** An acknowledgement read by itself, and with what arrives behind it. */
  lemma ShortAckDependsOnReads()
    ensures Feed([[0x40, 0], [0x30, 2]]).messages == [Message(4, 0, AckBody(None))]
    ensures Drain([0x40, 0, 0x30, 2]).messages == [Message(4, 0, AckBody(Some(0x3002)))]
  {
    var s: seq<byte>, t: seq<byte> := [0x40, 0], [0x30, 2];
    ShortAckReadsBehind([]);
    assert [0x40, 0, 0x30, 2] + [] == s + t && (s + t)[2..] == t;
    assert ScanLength(t[1..], 0) == Length(2, 1);
    assert Parse(t) == Incomplete;
    hide Parse;
    DrainStep(s);
    DrainStep(t);
    DrainStep(s + t);
    NothingLeft(s, 2);
    FeedTwo(s, t);
    ResumeAfter([Message(4, 0, AckBody(None))], Drained([], [], false), t);
    ResumeDrained([], t);
    assert [] + t == t;
  }

  // ---------------------------------------------------------------- streams of packets

  /** Each of the packets parses, by itself, to the message beside it. */
  ghost predicate AllParse(packets: seq<seq<byte>>, messages: seq<Message>) {
    && |packets| == |messages|
    && (forall i :: 0 <= i < |packets| ==> Parse(packets[i]) == Packet(messages[i], |packets[i]|))
  }

  /** No acknowledgement among the packets finds its identifier only behind itself, with t behind all of them. */
  predicate AllRoom(packets: seq<seq<byte>>, t: seq<byte>) {
    packets == [] || (!(|packets[0]| < Reach(packets[0]) <= |Concat(packets) + t|) && AllRoom(packets[1..], t))
  }

  lemma PacketInFront(p: seq<byte>, more: seq<byte>, m: Message)
    requires Parse(p) == Packet(m, |p|)
    ensures Parse(p + more).Packet? && Parse(p + more).size == |p| && (p + more)[|p|..] == more
    ensures Parse(p + more).message == m <==> !(|p| < Reach(p) <= |p + more|)
    ensures Reach(p + more) == Reach(p)
  {
    ParseExtendExactly(p, more);
    hide Parse, Reach;
  }

  lemma ConcatMore(packets: seq<seq<byte>>, t: seq<byte>)
    requires packets != []
    ensures Concat(packets) + t == packets[0] + (Concat(packets[1..]) + t)
  {
  }

  /** A stream of packets gives their messages in order, exactly if their acknowledgements have room. */
  lemma {:induction false} DrainStreamExactly(packets: seq<seq<byte>>, messages: seq<Message>, t: seq<byte>)
    requires AllParse(packets, messages)
    ensures Drain(Concat(packets) + t) == After(messages, Drain(t)) <==> AllRoom(packets, t)
    decreases |packets|
  {
    if packets == [] {
      assert Concat(packets) + t == t && messages == [];
      AfterTwice([], [], Drain(t));
    } else {
      hide Parse, Drain, After, Reach, Concat;
      var p, more := packets[0], Concat(packets[1..]) + t;
      ConcatMore(packets, t);
      PacketInFront(p, more, messages[0]);
      DrainStep(p + more);
      DrainStreamExactly(packets[1..], messages[1..], t);
      AfterTwice([messages[0]], messages[1..], Drain(t));
      assert [messages[0]] + messages[1..] == messages;
      AfterDiffers([Parse(p + more).message], [messages[0]], Drain(more), After(messages[1..], Drain(t)));
    }
  }

  /** Such a stream is settled exactly if its acknowledgements have room. */
  lemma {:induction false} StreamSettledExactly(packets: seq<seq<byte>>, messages: seq<Message>, t: seq<byte>)
    requires AllParse(packets, messages)
    ensures Settled(Concat(packets) + t) <==> AllRoom(packets, t) && Settled(t)
    decreases |packets|
  {
    if packets == [] {
      assert Concat(packets) + t == t;
    } else {
      hide Parse, Settled, Reach, Concat;
      var p, more := packets[0], Concat(packets[1..]) + t;
      ConcatMore(packets, t);
      PacketInFront(p, more, messages[0]);
      SettledStep(p + more);
      StreamSettledExactly(packets[1..], messages[1..], t);
    }
  }

  /** A stream cut inside a packet: the messages before it, and what there is of it. */
  lemma CutStreamExactly(packets: seq<seq<byte>>, messages: seq<Message>, last: seq<byte>, k: nat)
    requires AllParse(packets, messages) && Parse(last).Packet? && Parse(last).size == |last| && k < |last|
    ensures Drain(Concat(packets) + last[..k]) == Drained(messages, last[..k], false) <==> AllRoom(packets, last[..k])
  {
    DrainStreamExactly(packets, messages, last[..k]);
    ParseProperPrefix(last, k);
    DrainStep(last[..k]);
    assert messages + [] == messages;
    hide Parse, Drain, Concat, AllRoom;
  }
}
