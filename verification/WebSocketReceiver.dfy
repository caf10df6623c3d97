/**
 * What mg_deliver_websocket_data and the loop around it do to a connection,
 * on values, and what a stream of frames therefore delivers.
 */
module WebSocketReceiver {
  import opened Bytes
  import opened WebSocketFrames

  /**
   * What the user handler is given. The size of an orphan, empty, final
   * continuation is computed as 0 - 1 and wraps around: no payload is defined.
   */
  datatype Event = Message(flags: byte, data: seq<byte>) | WrappedSize

  /** A frame the library sends by itself. */
  datatype Reply = Reply(op: nat, data: seq<byte>)

  /** recv holds reassLen collected octets (first flags octet, then data), then unread ones. */
  datatype Receiver = Receiver(
    recv: seq<byte>, reassLen: nat, defrag: bool,
    events: seq<Event>, sent: seq<Reply>, closing: bool)

  predicate Valid(s: Receiver) { s.reassLen <= |s.recv| }

  function Unread(s: Receiver): seq<byte>
    requires Valid(s)
  {
    s.recv[s.reassLen..]
  }

  function WithFin(flags: byte): byte {
    if IsFin(flags) then flags else flags + FIN
  }

  function SendClose(s: Receiver, data: seq<byte>): Receiver {
    s.(sent := s.sent + [Reply(CLOSE, data)], closing := true)
  }

  /** The reasons the library gives in the Close frames it originates. */
  datatype Fault = FragmentedControl | NotAContinuation | Overflowed

  function Octet(c: char): byte {
    if c < 128 as char then c as int else 0
  }

  function Text(s: string): seq<byte> {
    seq(|s|, i requires 0 <= i < |s| => Octet(s[i]))
  }

  function Reason(f: Fault): seq<byte> {
    match f
    case FragmentedControl => Text("fragmented control frames are illegal")
    case NotAContinuation => Text("non-continuation in the middle of a fragmented message")
    case Overflowed => Text("overflowed message")
  }

  /** The collected octets with one more fragment; a first fragment brings its flags along. */
  function Kept(s: Receiver, flags: byte, data: seq<byte>): seq<byte>
    requires Valid(s)
  {
    s.recv[..s.reassLen] + (if IsFirstFragment(flags) then [flags] else []) + data
  }

  /** One fragment joins the collected octets; the last one hands the message over. */
  function Collect(s: Receiver, flags: byte, data: seq<byte>, rest: seq<byte>): Receiver
    requires Valid(s)
  {
    var kept := Kept(s, flags, data);
    var len := (if IsFirstFragment(flags) then 1 else s.reassLen) + |data|;
    if !IsFin(flags) then s.(recv := kept + rest, reassLen := len)
    else
      var event := if len == 0 then WrappedSize else Message(WithFin(kept[0]), kept[1..]);
      s.(recv := rest, reassLen := 0, events := s.events + [event])
  }

  /** A whole, unfragmented frame goes straight to the user, after any automatic reply. */
  function Hand(s: Receiver, flags: byte, data: seq<byte>, rest: seq<byte>): Receiver
    requires Valid(s)
  {
    var answered := if Opcode(flags) == PING then s.(sent := s.sent + [Reply(PONG, data)])
                    else if Opcode(flags) == CLOSE then SendClose(s, data) else s;
    answered.(recv := s.recv[..s.reassLen] + rest, events := s.events + [Message(flags, data)])
  }

  datatype Outcome = Waiting | Faulty(fault: Fault) | Delivered(next: Receiver)

  /** Set aside until the last fragment comes, unless defragmenting is switched off. */
  predicate Reassembles(s: Receiver, flags: byte) { IsFragment(flags) && s.defrag }

  /** The frames refused on the sight of their first octet. */
  function OrderFault(s: Receiver, flags: byte): Option<Fault> {
    if Reassembles(s, flags) && IsControl(flags) then Some(FragmentedControl)
    else if !Reassembles(s, flags) && !IsControl(flags) && s.reassLen > 0 then Some(NotAContinuation)
    else None
  }

  function Accept(s: Receiver, flags: byte, data: seq<byte>, rest: seq<byte>): Receiver
    requires Valid(s)
  {
    if Reassembles(s, flags) then Collect(s, flags, data, rest) else Hand(s, flags, data, rest)
  }

  function Try(s: Receiver): (o: Outcome)
    requires Valid(s)
  {
    var u := Unread(s);
    if u == [] then Waiting
    else if OrderFault(s, u[0]).Some? then Faulty(OrderFault(s, u[0]).value)
    else match Parse(u)
      case NeedMore => Waiting
      case Overflow => Faulty(Overflowed)
      case Whole(flags, data, rest) => Delivered(Accept(s, flags, data, rest))
  }

  /** Each delivery shortens the buffer, which is why the loop ends on every input. */
  lemma TryShrinks(s: Receiver)
    requires Valid(s) && Try(s).Delivered?
    ensures Valid(Try(s).next) && |Try(s).next.recv| < |s.recv|
    ensures Try(s).next.defrag == s.defrag
  {
  }

  /** What one call does to the connection. */
  function Deliver(s: Receiver): Receiver
    requires Valid(s)
  {
    match Try(s)
    case Waiting => s
    case Faulty(fault) => SendClose(s, Reason(fault))
    case Delivered(next) => next
  }

  /** The octets of an ASCII text are the codes of its characters, in order. */
  lemma TextIsAscii(s: string)
    requires forall i :: 0 <= i < |s| ==> s[i] as int < 128
    ensures |Text(s)| == |s| && forall i :: 0 <= i < |s| ==> Text(s)[i] == s[i] as int
  {
  }

  /**
   * A fault is answered with one Close frame (opcode 8) that gives its reason, and the connection is marked for
   * closing; the octets stay where they are.
   */
  lemma FaultIsAnswered(s: Receiver)
    requires Valid(s) && Try(s).Faulty?
    ensures var reason := match Try(s).fault
                          case FragmentedControl => "fragmented control frames are illegal"
                          case NotAContinuation => "non-continuation in the middle of a fragmented message"
                          case Overflowed => "overflowed message";
            Deliver(s) == s.(sent := s.sent + [Reply(8, Text(reason))], closing := true)
  {
    hide Try, Text;
  }

  /** The connection when no further frame can be delivered. */
  function Settle(s: Receiver): (t: Receiver)
    requires Valid(s)
    ensures Valid(t) && !Try(t).Delivered?
    decreases |s.recv|
  {
    if Try(s).Delivered? then
      TryShrinks(s);
      Settle(Try(s).next)
    else s
  }

  /** One MG_EV_RECV: calls repeat until one of them returns 0. */
  function Drain(s: Receiver): (t: Receiver)
    requires Valid(s)
    ensures Valid(t)
  {
    Deliver(Settle(s))
  }

  function Feed(s: Receiver, chunk: seq<byte>): (t: Receiver)
    requires Valid(s)
    ensures Valid(t)
  {
    s.(recv := s.recv + chunk)
  }

  function FeedAll(s: Receiver, chunks: seq<seq<byte>>): (t: Receiver)
    requires Valid(s)
    ensures Valid(t)
    decreases |chunks|
  {
    if chunks == [] then s else FeedAll(Drain(Feed(s, chunks[0])), chunks[1..])
  }

  // ---------------------------------------------------------------- split invariance

  lemma AcceptExtend(s: Receiver, flags: byte, data: seq<byte>, rest: seq<byte>, more: seq<byte>)
    requires Valid(s)
    ensures Accept(Feed(s, more), flags, data, rest + more) == Feed(Accept(s, flags, data, rest), more)
  {
    assert (s.recv + more)[..s.reassLen] == s.recv[..s.reassLen];
    assert s.recv[..s.reassLen] + (rest + more) == (s.recv[..s.reassLen] + rest) + more;
    assert Kept(s, flags, data) + (rest + more) == (Kept(s, flags, data) + rest) + more;
  }

  /** Octets that arrive later never change what is delivered now. */
  lemma TryExtend(s: Receiver, more: seq<byte>)
    requires Valid(s)
    ensures Try(s).Delivered? ==> Try(Feed(s, more)) == Delivered(Feed(Try(s).next, more))
    ensures Try(s).Faulty? ==> Try(Feed(s, more)) == Try(s)
  {
    var u := Unread(s);
    assert Unread(Feed(s, more)) == u + more;
    if u != [] {
      assert (u + more)[0] == u[0];
      ParseExtend(u, more);
      if Parse(u).Whole? {
        AcceptExtend(s, u[0], Parse(u).payload, Parse(u).rest, more);
      }
    }
  }

  lemma {:induction false} SettleExtend(s: Receiver, more: seq<byte>)
    requires Valid(s)
    ensures Settle(Feed(Settle(s), more)) == Settle(Feed(s, more))
    decreases |s.recv|
  {
    if Try(s).Delivered? {
      TryShrinks(s);
      TryExtend(s, more);
      SettleExtend(Try(s).next, more);
    }
  }

  /** Everything but the frames the library sent by itself and the closing flag. */
  function Quiet(s: Receiver): Receiver { s.(sent := [], closing := false) }

  lemma TryQuiet(s: Receiver)
    requires Valid(s)
    ensures match Try(s)
            case Delivered(next) => Try(Quiet(s)).Delivered? && Quiet(Try(Quiet(s)).next) == Quiet(next)
            case other => Try(Quiet(s)) == other
  {
  }

  lemma {:induction false} SettleQuiet(s: Receiver, t: Receiver)
    requires Valid(s) && Valid(t) && Quiet(s) == Quiet(t)
    ensures Quiet(Settle(s)) == Quiet(Settle(t))
    decreases |s.recv|
  {
    TryQuiet(s);
    TryQuiet(t);
    if Try(s).Delivered? {
      TryShrinks(s);
      SettleQuiet(Try(s).next, Try(t).next);
    }
  }

  lemma FeedTwice(s: Receiver, a: seq<byte>, b: seq<byte>)
    requires Valid(s)
    ensures Feed(Feed(s, a), b) == Feed(s, a + b)
  {
    assert (s.recv + a) + b == s.recv + (a + b);
  }

  /**
   * However TCP cuts an octet stream, whatever the stream is, the user sees the same
   * events and the same octets stay behind.
   */
  lemma {:induction false} SplitInvariance(s: Receiver, chunks: seq<seq<byte>>)
    requires Valid(s) && chunks != []
    ensures Quiet(FeedAll(s, chunks)) == Quiet(Drain(Feed(s, Concat(chunks))))
    decreases |chunks|
  {
    var t := Drain(Feed(s, chunks[0]));
    if |chunks| == 1 {
      assert Concat(chunks) == chunks[0] + Concat([]) == chunks[0];
      assert FeedAll(s, chunks) == t;
    } else {
      var more := Concat(chunks[1..]);
      SplitInvariance(t, chunks[1..]);
      SettleQuiet(Feed(t, more), Feed(Settle(Feed(s, chunks[0])), more));
      SettleExtend(Feed(s, chunks[0]), more);
      FeedTwice(s, chunks[0], more);
    }
  }

  /** A stream without a fault also gets the same replies, however it is cut. */
  lemma {:induction false} SplitInvarianceOfReplies(s: Receiver, chunks: seq<seq<byte>>)
    requires Valid(s) && chunks != []
    requires Try(Settle(Feed(s, Concat(chunks)))).Waiting?
    ensures FeedAll(s, chunks) == Settle(Feed(s, Concat(chunks)))
    decreases |chunks|
  {
    var t := Settle(Feed(s, chunks[0]));
    var more := Concat(chunks[1..]);
    FeedTwice(s, chunks[0], more);
    SettleExtend(Feed(s, chunks[0]), more);
    TryExtend(t, more);
    if |chunks| == 1 {
      assert more == [] && Concat(chunks) == chunks[0];
      assert FeedAll(s, chunks) == Drain(Feed(s, chunks[0]));
    } else {
      SplitInvarianceOfReplies(t, chunks[1..]);
    }
  }

  // ---------------------------------------------------------------- frames

  /** A data message under assembly, as section 5.4 of RFC 6455 sees it. */
  datatype Assembly = Idle | Collecting(flags: byte, data: seq<byte>)

  function Collected(a: Assembly): seq<byte> {
    match a
    case Idle => []
    case Collecting(flags, data) => [flags] + data
  }

  /** The order of frames that section 5.4 of RFC 6455 allows. */
  predicate InOrder(a: Assembly, flags: byte) {
    if IsControl(flags) then !IsFragment(flags)
    else if Opcode(flags) == CONTINUE then a.Collecting?
    else a.Idle?
  }

  function Advance(a: Assembly, f: Frame): Assembly
    requires InOrder(a, f.flags)
  {
    if !IsFragment(f.flags) then a
    else if IsFirstFragment(f.flags) then Collecting(f.flags, f.payload)
    else if IsFin(f.flags) then Idle
    else Collecting(a.flags, a.data + f.payload)
  }

  function Emits(a: Assembly, f: Frame): seq<Event>
    requires InOrder(a, f.flags)
  {
    if !IsFragment(f.flags) then [Message(f.flags, f.payload)]
    else if IsFirstFragment(f.flags) || !IsFin(f.flags) then []
    else [Message(WithFin(a.flags), a.data + f.payload)]
  }

  function Replies(f: Frame): seq<Reply> {
    if IsFragment(f.flags) then []
    else if Opcode(f.flags) == PING then [Reply(PONG, f.payload)]
    else if Opcode(f.flags) == CLOSE then [Reply(CLOSE, f.payload)]
    else []
  }

  predicate AllInOrder(a: Assembly, fs: seq<Frame>)
    decreases |fs|
  {
    fs == [] || (InOrder(a, fs[0].flags) && AllInOrder(Advance(a, fs[0]), fs[1..]))
  }

  function AdvanceAll(a: Assembly, fs: seq<Frame>): Assembly
    requires AllInOrder(a, fs)
    decreases |fs|
  {
    if fs == [] then a else AdvanceAll(Advance(a, fs[0]), fs[1..])
  }

  function EmitsAll(a: Assembly, fs: seq<Frame>): seq<Event>
    requires AllInOrder(a, fs)
    decreases |fs|
  {
    if fs == [] then [] else Emits(a, fs[0]) + EmitsAll(Advance(a, fs[0]), fs[1..])
  }

  function RepliesAll(fs: seq<Frame>): seq<Reply> {
    if fs == [] then [] else Replies(fs[0]) + RepliesAll(fs[1..])
  }

  predicate HasClose(fs: seq<Frame>) {
    exists f | f in fs :: !IsFragment(f.flags) && Opcode(f.flags) == CLOSE
  }

  /** The connection holds the assembly a and the octets tail, nothing else changed from s. */
  function At(s: Receiver, a: Assembly, tail: seq<byte>): (t: Receiver)
    ensures Valid(t)
  {
    s.(recv := Collected(a) + tail, reassLen := |Collected(a)|)
  }

  function After(s: Receiver, events: seq<Event>, sent: seq<Reply>, closed: bool): Receiver {
    s.(events := s.events + events, sent := s.sent + sent, closing := s.closing || closed)
  }

  lemma UnreadAt(s: Receiver, a: Assembly, tail: seq<byte>)
    ensures Unread(At(s, a, tail)) == tail
    ensures At(s, a, tail).recv[..|Collected(a)|] == Collected(a)
  {
  }

  function Next(s: Receiver, a: Assembly, f: Frame, rest: seq<byte>): Receiver
    requires InOrder(a, f.flags)
  {
    At(After(s, Emits(a, f), Replies(f), HasClose([f])), Advance(a, f), rest)
  }

  lemma CollectInOrder(s: Receiver, a: Assembly, f: Frame, u: seq<byte>, rest: seq<byte>)
    requires InOrder(a, f.flags) && IsFragment(f.flags)
    ensures Collect(At(s, a, u), f.flags, f.payload, rest) == Next(s, a, f, rest)
  {
    UnreadAt(s, a, u);
    assert !HasClose([f]);
    if a.Idle? {
      assert [] + [f.flags] + f.payload == [f.flags] + f.payload;
    } else {
      assert Collected(a) + [] + f.payload == [a.flags] + (a.data + f.payload);
    }
    assert s.sent + [] == s.sent && s.events + [] == s.events;
    assert Collected(Idle) + rest == rest;
  }

  lemma HandInOrder(s: Receiver, a: Assembly, f: Frame, u: seq<byte>, rest: seq<byte>)
    requires InOrder(a, f.flags) && !IsFragment(f.flags)
    ensures Hand(At(s, a, u), f.flags, f.payload, rest) == Next(s, a, f, rest)
  {
    UnreadAt(s, a, u);
    assert f in [f];
    assert s.sent + [] == s.sent;
  }

  /** A whole frame in order: one call consumes exactly its octets and does what the RFC says. */
  lemma TryFrame(s: Receiver, a: Assembly, f: Frame, rest: seq<byte>)
    requires s.defrag && InOrder(a, f.flags)
    ensures Try(At(s, a, Wire(f) + rest)) == Delivered(Next(s, a, f, rest))
  {
    var u := Wire(f) + rest;
    UnreadAt(s, a, u);
    ParseWire(f, rest);
    assert u[0] == f.flags;
    if IsFragment(f.flags) {
      CollectInOrder(s, a, f, u, rest);
    } else {
      HandInOrder(s, a, f, u, rest);
    }
  }

  /** While a frame in order is still arriving, the handler waits and changes nothing. */
  lemma TryPartial(s: Receiver, a: Assembly, f: Frame, p: seq<byte>)
    requires s.defrag && InOrder(a, f.flags) && p < Wire(f)
    ensures Try(At(s, a, p)).Waiting?
  {
    UnreadAt(s, a, p);
    if p != [] {
      assert p[0] == Wire(f)[0] == f.flags;
      ParseProperPrefix(f, p);
    }
  }

  /**
   * Out of order, the handler notices only some frames. It refuses exactly what it must
   * unless the frame is a data fragment: a second first fragment, or a continuation of nothing.
   */
  lemma OrderIsEnforcedExactly(s: Receiver, a: Assembly, f: Frame, rest: seq<byte>)
    requires s.defrag
    ensures (Try(At(s, a, Wire(f) + rest)).Faulty? <==> !InOrder(a, f.flags))
       <==> !(IsFragment(f.flags) && !IsControl(f.flags) && IsFirstFragment(f.flags) == a.Collecting?)
  {
    UnreadAt(s, a, Wire(f) + rest);
    ParseWire(f, rest);
    assert (Wire(f) + rest)[0] == f.flags;
    assert At(s, a, Wire(f) + rest).reassLen > 0 <==> a.Collecting?;
    hide Wire, Parse, Accept, At;
  }

  /**
   * The unread octets become fewer with every frame that is accepted, in order or not, except exactly a
   * second first fragment that is no longer than the octets collected before it.
   */
  lemma UnreadFallsExactly(s: Receiver, a: Assembly, f: Frame, rest: seq<byte>)
    requires s.defrag && Try(At(s, a, Wire(f) + rest)).Delivered?
    ensures var next := Try(At(s, a, Wire(f) + rest)).next;
            && Valid(next)
            && (|Unread(next)| < |Wire(f) + rest|
                <==> !(a.Collecting? && IsFirstFragment(f.flags) && |Collected(a)| >= |Wire(f)|))
  {
    UnreadAt(s, a, Wire(f) + rest);
    ParseWire(f, rest);
    assert (Wire(f) + rest)[0] == f.flags;
    AcceptLeaves(s, a, Wire(f) + rest, f, rest);
    hide Wire, Parse, Accept, At;
  }

  lemma AcceptLeaves(s: Receiver, a: Assembly, u: seq<byte>, f: Frame, rest: seq<byte>)
    requires OrderFault(At(s, a, u), f.flags) == None && s.defrag
    ensures var next := Accept(At(s, a, u), f.flags, f.payload, rest);
            && Valid(next)
            && |Unread(next)| == |rest| + if a.Collecting? && IsFirstFragment(f.flags) then |Collected(a)| else 0
  {
    UnreadAt(s, a, u);
  }

  lemma HasCloseSplit(f: Frame, fs: seq<Frame>)
    ensures HasClose([f] + fs) <==> HasClose([f]) || HasClose(fs)
  {
    assert f in [f];
  }

  /** The connection after whole frames in order, with tail still unread. */
  function NextAll(s: Receiver, a: Assembly, fs: seq<Frame>, tail: seq<byte>): Receiver
    requires AllInOrder(a, fs)
  {
    At(After(s, EmitsAll(a, fs), RepliesAll(fs), HasClose(fs)), AdvanceAll(a, fs), tail)
  }

  lemma NextAllStep(s: Receiver, a: Assembly, fs: seq<Frame>, tail: seq<byte>)
    requires fs != [] && AllInOrder(a, fs)
    ensures NextAll(s, a, fs, tail) ==
            NextAll(After(s, Emits(a, fs[0]), Replies(fs[0]), HasClose([fs[0]])), Advance(a, fs[0]), fs[1..], tail)
  {
    var f, b := fs[0], Advance(a, fs[0]);
    assert fs == [f] + fs[1..];
    HasCloseSplit(f, fs[1..]);
    AfterTwice(s, Emits(a, f), Replies(f), HasClose([f]),
               EmitsAll(b, fs[1..]), RepliesAll(fs[1..]), HasClose(fs[1..]));
  }

  /** Any number of whole frames in order, and then octets on which the handler waits. */
  lemma {:induction false} SettleFrames(s: Receiver, a: Assembly, fs: seq<Frame>, tail: seq<byte>)
    requires s.defrag && AllInOrder(a, fs)
    requires Try(At(s, AdvanceAll(a, fs), tail)).Waiting?
    ensures Settle(At(s, a, Wires(fs) + tail)) == NextAll(s, a, fs, tail)
    decreases |fs|
  {
    hide Try, Settle, At, After, NextAll, Wire, Wires, Emits, Replies, HasClose, Advance, InOrder;
    if fs == [] {
      NoFrames(s, a, fs, tail);
      SettleWaits(At(s, a, tail));
    } else {
      var f, b, more := fs[0], Advance(a, fs[0]), Wires(fs[1..]) + tail;
      var s' := After(s, Emits(a, f), Replies(f), HasClose([f]));
      AfterKeeps(s, Emits(a, f), Replies(f), HasClose([f]));
      FirstWire(fs, tail);
      TryFrame(s, a, f, more);
      SettleStep(At(s, a, Wire(f) + more));
      WaitingIgnoresHistory(s, s', AdvanceAll(a, fs), tail);
      SettleFrames(s', b, fs[1..], tail);
      NextAllStep(s, a, fs, tail);
    }
  }

  lemma NoFrames(s: Receiver, a: Assembly, fs: seq<Frame>, tail: seq<byte>)
    requires fs == []
    ensures AllInOrder(a, fs) && AdvanceAll(a, fs) == a
    ensures Wires(fs) + tail == tail && NextAll(s, a, fs, tail) == At(s, a, tail)
  {
    assert After(s, [], [], false) == s;
  }

  lemma FirstWire(fs: seq<Frame>, tail: seq<byte>)
    requires fs != []
    ensures Wires(fs) + tail == Wire(fs[0]) + (Wires(fs[1..]) + tail)
  {
    hide Wire;
  }

  lemma AfterKeeps(s: Receiver, events: seq<Event>, sent: seq<Reply>, closed: bool)
    ensures After(s, events, sent, closed).defrag == s.defrag
  {
  }

  lemma SettleWaits(s: Receiver)
    requires Valid(s) && Try(s).Waiting?
    ensures Settle(s) == s
  {
    hide Try;
  }

  lemma SettleStep(s: Receiver)
    requires Valid(s) && Try(s).Delivered?
    ensures Valid(Try(s).next) && Settle(s) == Settle(Try(s).next)
  {
    TryShrinks(s);
    hide Try;
  }

  lemma WaitingIgnoresHistory(s: Receiver, t: Receiver, a: Assembly, tail: seq<byte>)
    requires s.defrag == t.defrag && Try(At(s, a, tail)).Waiting?
    ensures Try(At(t, a, tail)).Waiting?
  {
    UnreadAt(s, a, tail);
    UnreadAt(t, a, tail);
  }

  lemma AfterTwice(s: Receiver, e: seq<Event>, r: seq<Reply>, c: bool, e': seq<Event>, r': seq<Reply>, c': bool)
    ensures After(After(s, e, r, c), e', r', c') == After(s, e + e', r + r', c || c')
  {
    assert (s.events + e) + e' == s.events + (e + e');
    assert (s.sent + r) + r' == s.sent + (r + r');
  }

  /**
   * Frames in order, cut anywhere into reads, the last one possibly still arriving: the
   * user gets exactly the events of the whole frames, each Ping and Close is answered
   * once, and what stays in the buffer is the fragment collected so far and the partial frame.
   */
  lemma StreamOfFrames(s: Receiver, fs: seq<Frame>, next: Frame, tail: seq<byte>, chunks: seq<seq<byte>>)
    requires s.defrag && s.recv == [] && s.reassLen == 0 && chunks != []
    requires AllInOrder(Idle, fs) && InOrder(AdvanceAll(Idle, fs), next.flags) && tail < Wire(next)
    requires Concat(chunks) == Wires(fs) + tail
    ensures FeedAll(s, chunks) == NextAll(s, Idle, fs, tail)
  {
    var a := AdvanceAll(Idle, fs);
    TryPartial(s, a, next, tail);
    SettleFrames(s, Idle, fs, tail);
    assert Feed(s, Concat(chunks)) == At(s, Idle, Wires(fs) + tail);
    WaitingIgnoresHistory(s, After(s, EmitsAll(Idle, fs), RepliesAll(fs), HasClose(fs)), a, tail);
    SplitInvarianceOfReplies(s, chunks);
  }
}
