/**
 * Both ends together: what mg_send_websocket_frame writes on one connection is what
 * mg_ws_handler hands out on the other, masked or not and in any reads.
 */
module WebSocketPeers {
  import opened Bytes
  import opened WebSocketFrames
  import opened WebSocketReceiver
  import opened WebSocketMessages
  import opened WebSocketConnection

  /** The frames behind SentWire. */
  ghost function SentFrames(isClient: bool, masks: nat -> Mask, sent: seq<Reply>): (fs: seq<Frame>)
    requires Sendable(sent)
    ensures |fs| == |sent|
  {
    if sent == [] then []
    else
      var n := |sent| - 1;
      SentFrames(isClient, masks, sent[..n])
        + [OutFrame(sent[n].op, sent[n].data, MaskOf(isClient, masks, n))]
  }

  /** The send buffer is a stream of frames. */
  lemma {:induction false} SentWireIsFrames(isClient: bool, masks: nat -> Mask, sent: seq<Reply>)
    requires Sendable(sent)
    ensures SentWire(isClient, masks, sent) == Wires(SentFrames(isClient, masks, sent))
  {
    if sent != [] {
      var n := |sent| - 1;
      var f := OutFrame(sent[n].op, sent[n].data, if isClient then Some(masks(n)) else None);
      var before := SentFrames(isClient, masks, sent[..n]);
      SentWireIsFrames(isClient, masks, sent[..n]);
      WiresConcat(before, [f]);
      WiresOne(f);
      hide Wires, Wire, OutFrame;
    }
  }

  lemma WiresOne(f: Frame)
    ensures Wires([f]) == Wire(f)
  {
    var fs := [f];
    assert fs[1..] == [] && Wires(fs[1..]) == [] && Wire(f) + [] == Wire(f);
    hide Wire;
  }

  // ---------------------------------------------------------------- what a caller sends

  /**
   * A whole message or control frame in one call, or a message in several calls: the first and all but the last
   * with WEBSOCKET_DONT_FIN (0x100), all but the first as continuation (opcode 0), pings, pongs and closes between.
   */
  datatype Outgoing =
    | Alone(op: nat, data: seq<byte>)
    | InParts(kind: nat, first: seq<byte>, parts: seq<Part>, last: seq<byte>)

  datatype Part = Data(data: seq<byte>) | Control(op: nat, data: seq<byte>)

  predicate Sensible(o: Outgoing) {
    match o
    case Alone(op, _) => op < 0x100 && op % 16 != 0
    case InParts(kind, _, parts, _) =>
      0 < kind < 8 && ControlsAreControls(parts)
  }

  predicate ControlsAreControls(parts: seq<Part>) {
    forall i :: 0 <= i < |parts| ==> parts[i].Control? ==> parts[i].op in {8, 9, 10}
  }

  function CallOf(p: Part): Reply {
    match p
    case Data(data) => Reply(0x100, data)
    case Control(op, data) => Reply(op, data)
  }

  function PartCalls(parts: seq<Part>): seq<Reply> {
    if parts == [] then [] else [CallOf(parts[0])] + PartCalls(parts[1..])
  }

  /** The calls of mg_send_websocket_frame, their opcode arguments and data. */
  function Calls(o: Outgoing): seq<Reply> {
    match o
    case Alone(op, data) => [Reply(op, data)]
    case InParts(kind, first, parts, last) => [Reply(0x100 + kind, first)] + (PartCalls(parts) + [Reply(0, last)])
  }

  function AllCalls(outs: seq<Outgoing>): seq<Reply> {
    if outs == [] then [] else Calls(outs[0]) + AllCalls(outs[1..])
  }

  function PartData(parts: seq<Part>): seq<byte> {
    if parts == [] then [] else (if parts[0].Data? then parts[0].data else []) + PartData(parts[1..])
  }

  function PartEvents(parts: seq<Part>): seq<Event>
    requires ControlsAreControls(parts)
  {
    if parts == [] then []
    else (if parts[0].Control? then [Message(128 + parts[0].op, parts[0].data)] else []) + PartEvents(parts[1..])
  }

  /** What the peer is to be given: 128 is the bit for whole messages. */
  function EventsOf(o: Outgoing): seq<Event>
    requires Sensible(o)
  {
    match o
    case Alone(op, data) => [Message(128 + op % 16, data)]
    case InParts(kind, first, parts, last) => PartEvents(parts) + [Message(128 + kind, first + PartData(parts) + last)]
  }

  predicate AllSensible(outs: seq<Outgoing>) { forall i :: 0 <= i < |outs| ==> Sensible(outs[i]) }

  function AllEvents(outs: seq<Outgoing>): seq<Event>
    requires AllSensible(outs)
  {
    if outs == [] then [] else EventsOf(outs[0]) + AllEvents(outs[1..])
  }

  // ---------------------------------------------------------------- its frames

  ghost function MaskOf(isClient: bool, masks: nat -> Mask, k: nat): Option<Mask> {
    if isClient then Some(masks(k)) else None
  }

  /** The frames of the calls, of which the first is the k-th of the connection. */
  ghost function FramesFrom(isClient: bool, masks: nat -> Mask, k: nat, calls: seq<Reply>): (fs: seq<Frame>)
    requires Sendable(calls)
    ensures |fs| == |calls|
    decreases |calls|
  {
    if calls == [] then []
    else
      [OutFrame(calls[0].op, calls[0].data, MaskOf(isClient, masks, k))]
        + FramesFrom(isClient, masks, k + 1, calls[1..])
  }

  lemma {:induction false} FramesFromLast(isClient: bool, masks: nat -> Mask, k: nat, calls: seq<Reply>)
    requires Sendable(calls) && calls != []
    ensures var n := |calls| - 1;
            Sendable(calls[..n]) && FramesFrom(isClient, masks, k, calls)
            == FramesFrom(isClient, masks, k, calls[..n])
               + [OutFrame(calls[n].op, calls[n].data, MaskOf(isClient, masks, k + n))]
    decreases |calls|
  {
    var n := |calls| - 1;
    FramesFromStep(isClient, masks, k, calls);
    hide OutFrame, FramesFrom;
    if n > 0 {
      FramesFromLast(isClient, masks, k + 1, calls[1..]);
      assert calls[1..][..n - 1] == calls[..n][1..] && calls[..n][0] == calls[0];
      FramesFromStep(isClient, masks, k, calls[..n]);
    } else {
      NoFrames(isClient, masks, k, calls[..0]);
      NoFrames(isClient, masks, k + 1, calls[1..]);
    }
  }

  lemma FramesFromStep(isClient: bool, masks: nat -> Mask, k: nat, calls: seq<Reply>)
    requires Sendable(calls) && calls != []
    ensures |calls[0].data| < MAX_PAYLOAD && Sendable(calls[1..])
    ensures FramesFrom(isClient, masks, k, calls)
            == [OutFrame(calls[0].op, calls[0].data, MaskOf(isClient, masks, k))]
               + FramesFrom(isClient, masks, k + 1, calls[1..])
  {
    hide OutFrame;
  }

  lemma NoFrames(isClient: bool, masks: nat -> Mask, k: nat, calls: seq<Reply>)
    requires calls == []
    ensures FramesFrom(isClient, masks, k, calls) == []
  {
  }

  lemma {:induction false} SentIsFrom(isClient: bool, masks: nat -> Mask, sent: seq<Reply>)
    requires Sendable(sent)
    ensures SentFrames(isClient, masks, sent) == FramesFrom(isClient, masks, 0, sent)
  {
    if sent != [] {
      SentIsFrom(isClient, masks, sent[..|sent| - 1]);
      FramesFromLast(isClient, masks, 0, sent);
    }
    hide OutFrame;
  }

  lemma {:induction false} FramesFromSplits(isClient: bool, masks: nat -> Mask, k: nat, a: seq<Reply>, b: seq<Reply>)
    requires Sendable(a + b)
    ensures Sendable(a) && Sendable(b)
    ensures FramesFrom(isClient, masks, k, a + b)
            == FramesFrom(isClient, masks, k, a) + FramesFrom(isClient, masks, k + |a|, b)
    decreases |a|
  {
    Halves(a, b);
    hide OutFrame, FramesFrom;
    if a == [] {
      assert a + b == b;
      NoFrames(isClient, masks, k, a);
    } else {
      assert (a + b)[1..] == a[1..] + b && (a + b)[0] == a[0];
      FramesFromSplits(isClient, masks, k + 1, a[1..], b);
      FramesFromStep(isClient, masks, k, a + b);
      FramesFromStep(isClient, masks, k, a);
    }
  }

  lemma Halves(a: seq<Reply>, b: seq<Reply>)
    requires Sendable(a + b)
    ensures Sendable(a) && Sendable(b)
  {
    forall k | 0 <= k < |a| ensures |a[k].data| < MAX_PAYLOAD { assert (a + b)[k] == a[k]; }
    forall k | 0 <= k < |b| ensures |b[k].data| < MAX_PAYLOAD { assert (a + b)[|a| + k] == b[k]; }
  }

  // ---------------------------------------------------------------- as items of the stream

  /** The continuations and control frames inside a message. */
  lemma {:induction false} PartFrames(isClient: bool, masks: nat -> Mask, k: nat, parts: seq<Part>)
    requires Sendable(PartCalls(parts))
    requires ControlsAreControls(parts)
    ensures var fs := FramesFrom(isClient, masks, k, PartCalls(parts));
            && (forall i :: 0 <= i < |fs| ==> IsMiddle(fs[i]))
            && Joined(fs) == PartData(parts) && Interleaved(fs) == PartEvents(parts)
    decreases |parts|
  {
    if parts != [] {
      var calls := PartCalls(parts);
      assert calls[1..] == PartCalls(parts[1..]) && calls[0] == CallOf(parts[0]);
      PartFrames(isClient, masks, k + 1, parts[1..]);
      PartFrame(parts[0], MaskOf(isClient, masks, k));
      FramesFromStep(isClient, masks, k, calls);
      hide OutFrame, IsMiddle, IsControl, FramesFrom;
      assert FramesFrom(isClient, masks, k, calls)[1..] == FramesFrom(isClient, masks, k + 1, calls[1..]);
    }
  }

  lemma PartFrame(p: Part, mask: Option<Mask>)
    requires |p.data| < MAX_PAYLOAD && (p.Control? ==> p.op in {8, 9, 10})
    ensures var f := OutFrame(CallOf(p).op, p.data, mask);
            && IsMiddle(f) && f.payload == p.data && (IsControl(f.flags) <==> p.Control?)
            && (p.Control? ==> f.flags == 128 + p.op)
  {
  }

  lemma FirstAndLast(kind: nat, first: seq<byte>, last: seq<byte>, mask: Option<Mask>, mask': Option<Mask>)
    requires 0 < kind < 8 && |first| < MAX_PAYLOAD && |last| < MAX_PAYLOAD
    ensures var f, g := OutFrame(0x100 + kind, first, mask), OutFrame(0, last, mask');
            && IsFirstFragment(f.flags) && !IsControl(f.flags) && f.payload == first && WithFin(f.flags) == 128 + kind
            && IsFin(g.flags) && Opcode(g.flags) == CONTINUE && g.payload == last
  {
  }

  lemma AloneFrame(op: nat, data: seq<byte>, mask: Option<Mask>)
    requires op < 0x100 && op % 16 != 0 && |data| < MAX_PAYLOAD
    ensures var f := OutFrame(op, data, mask); IsLone(f) && f.flags == 128 + op % 16 && f.payload == data
  {
  }

  lemma OutgoingIsItem(isClient: bool, masks: nat -> Mask, k: nat, o: Outgoing) returns (item: Item)
    requires Sensible(o) && Sendable(Calls(o))
    ensures WellFormed(item) && FramesOf(item) == FramesFrom(isClient, masks, k, Calls(o))
    ensures Meant(item) == EventsOf(o)
  {
    var calls := Calls(o);
    match o
    case Alone(op, data) =>
      assert calls[0] == Reply(op, data) && calls[1..] == [];
      AloneFrame(op, data, MaskOf(isClient, masks, k));
      item := Single(OutFrame(op, data, MaskOf(isClient, masks, k)));
      hide OutFrame, IsLone;
    case InParts(kind, first, parts, last) =>
      item := InPartsIsItem(isClient, masks, k, kind, first, parts, last);
      hide OutFrame, FramesFrom;
  }

  lemma InPartsIsItem(isClient: bool, masks: nat -> Mask, k: nat, kind: nat, first: seq<byte>, parts: seq<Part>,
                      last: seq<byte>) returns (item: Item)
    requires var o := InParts(kind, first, parts, last); Sensible(o) && Sendable(Calls(o))
    ensures var o := InParts(kind, first, parts, last);
            && WellFormed(item) && FramesOf(item) == FramesFrom(isClient, masks, k, Calls(o))
            && Meant(item) == EventsOf(o)
  {
    var a, between, b := Reply(0x100 + kind, first), PartCalls(parts), Reply(0, last);
    EnclosedFrames(isClient, masks, k, a, between, b);
    PartFrames(isClient, masks, k + 1, parts);
    hide FramesFrom, SentFrames, OutFrame, PartCalls, Interleaved, Joined, IsMiddle, WellFormed, Meant;
    hide FramesOf, Sendable;
    var mask, mask' := MaskOf(isClient, masks, k), MaskOf(isClient, masks, k + 1 + |between|);
    item := Enclosed(kind, first, FramesFrom(isClient, masks, k + 1, between), last, mask, mask');
  }

  lemma EnclosedFrames(isClient: bool, masks: nat -> Mask, k: nat, a: Reply, between: seq<Reply>, b: Reply)
    requires Sendable([a] + (between + [b]))
    ensures |a.data| < MAX_PAYLOAD && |b.data| < MAX_PAYLOAD && Sendable(between)
    ensures FramesFrom(isClient, masks, k, [a] + (between + [b]))
            == [OutFrame(a.op, a.data, MaskOf(isClient, masks, k))]
               + (FramesFrom(isClient, masks, k + 1, between)
                  + [OutFrame(b.op, b.data, MaskOf(isClient, masks, k + 1 + |between|))])
  {
    Halves([a], between + [b]);
    Halves(between, [b]);
    assert [a][0] == a && [b][0] == b;
    OneCall(isClient, masks, k, a);
    OneCall(isClient, masks, k + 1 + |between|, b);
    hide *;
    FramesFromSplits(isClient, masks, k, [a], between + [b]);
    FramesFromSplits(isClient, masks, k + 1, between, [b]);
  }

  /** The item of a message in parts, from the frames between its first and its last one. */
  lemma Enclosed(kind: nat, first: seq<byte>, middle: seq<Frame>, last: seq<byte>, mask: Option<Mask>,
                 mask': Option<Mask>)
    returns (item: Item)
    requires 0 < kind < 8 && |first| < MAX_PAYLOAD && |last| < MAX_PAYLOAD
    requires forall i :: 0 <= i < |middle| ==> IsMiddle(middle[i])
    ensures WellFormed(item)
    ensures FramesOf(item) == [OutFrame(0x100 + kind, first, mask)] + (middle + [OutFrame(0, last, mask')])
    ensures Meant(item) == Interleaved(middle) + [Message(128 + kind, first + Joined(middle) + last)]
  {
    FirstAndLast(kind, first, last, mask, mask');
    hide OutFrame, IsMiddle, IsControl, WithFin, Opcode, IsFin, IsFirstFragment, Interleaved, Joined;
    item := Fragmented(OutFrame(0x100 + kind, first, mask), middle, OutFrame(0, last, mask'));
  }

  lemma OneCall(isClient: bool, masks: nat -> Mask, k: nat, r: Reply)
    requires |r.data| < MAX_PAYLOAD
    ensures Sendable([r]) && FramesFrom(isClient, masks, k, [r]) == [OutFrame(r.op, r.data, MaskOf(isClient, masks, k))]
  {
    assert [r][1..] == [];
    hide OutFrame;
  }

  lemma {:induction false} OutgoingAreItems(isClient: bool, masks: nat -> Mask, k: nat, outs: seq<Outgoing>)
    returns (items: seq<Item>)
    requires AllSensible(outs) && Sendable(AllCalls(outs))
    ensures AllWellFormed(items) && AllFrames(items) == FramesFrom(isClient, masks, k, AllCalls(outs))
    ensures AllMeant(items) == AllEvents(outs)
    decreases |outs|
  {
    hide *;
    if outs == [] {
      items := [];
      NoOutgoing(isClient, masks, k, outs);
    } else {
      FirstOutgoing(outs);
      var head, tail := Calls(outs[0]), AllCalls(outs[1..]);
      Halves(head, tail);
      var item := OutgoingIsItem(isClient, masks, k, outs[0]);
      var more := OutgoingAreItems(isClient, masks, k + |head|, outs[1..]);
      items := FirstItem(isClient, masks, k, head, tail, item, more);
    }
  }

  lemma NoOutgoing(isClient: bool, masks: nat -> Mask, k: nat, outs: seq<Outgoing>)
    requires outs == []
    ensures AllSensible(outs) && Sendable(AllCalls(outs)) && AllWellFormed([]) && AllMeant([]) == AllEvents(outs)
    ensures AllFrames([]) == FramesFrom(isClient, masks, k, AllCalls(outs))
  {
  }

  lemma FirstOutgoing(outs: seq<Outgoing>)
    requires outs != [] && AllSensible(outs)
    ensures Sensible(outs[0]) && AllSensible(outs[1..]) && AllCalls(outs) == Calls(outs[0]) + AllCalls(outs[1..])
    ensures AllEvents(outs) == EventsOf(outs[0]) + AllEvents(outs[1..])
  {
    hide Sensible, Calls, EventsOf;
  }

  lemma FirstItem(isClient: bool,
                  masks: nat -> Mask, k: nat, head: seq<Reply>, tail: seq<Reply>, item: Item, more: seq<Item>)
    returns (items: seq<Item>)
    requires Sendable(head + tail) && Sendable(head) && Sendable(tail) && WellFormed(item) && AllWellFormed(more)
    requires FramesOf(item) == FramesFrom(isClient, masks, k, head)
    requires AllFrames(more) == FramesFrom(isClient, masks, k + |head|, tail)
    ensures AllFrames(items) == FramesFrom(isClient, masks, k, head + tail)
    ensures AllMeant(items) == Meant(item) + AllMeant(more) && AllWellFormed(items)
  {
    hide FramesOf, Meant, WellFormed, FramesFrom;
    FramesFromSplits(isClient, masks, k, head, tail);
    items := [item] + more;
    assert items[1..] == more;
  }

  /** A ping (9) is answered with a pong (10) and a close (8) with a close, each with the data it came with. */
  function Answers(calls: seq<Reply>): seq<Reply> {
    if calls == [] then [] else Answer(calls[0]) + Answers(calls[1..])
  }

  function Answer(r: Reply): seq<Reply> {
    if r.op / 0x100 % 2 == 1 then []
    else if r.op % 16 == 9 then [Reply(10, r.data)]
    else if r.op % 16 == 8 then [Reply(8, r.data)]
    else []
  }

  predicate SomeClose(calls: seq<Reply>) {
    exists k :: 0 <= k < |calls| && calls[k].op / 0x100 % 2 == 0 && calls[k].op % 16 == 8
  }

  lemma {:induction false} FramesAnswered(isClient: bool, masks: nat -> Mask, k: nat, calls: seq<Reply>)
    requires Sendable(calls)
    ensures var fs := FramesFrom(isClient, masks, k, calls);
            RepliesAll(fs) == Answers(calls) && HasClose(fs) == SomeClose(calls)
    decreases |calls|
  {
    if calls != [] {
      var f := OutFrame(calls[0].op, calls[0].data, MaskOf(isClient, masks, k));
      var fs := FramesFrom(isClient, masks, k + 1, calls[1..]);
      FrameAnswered(calls[0], MaskOf(isClient, masks, k));
      FramesAnswered(isClient, masks, k + 1, calls[1..]);
      HasCloseSplit(f, fs);
      SomeCloseSplit(calls[0], calls[1..]);
      FramesFromStep(isClient, masks, k, calls);
      assert [calls[0]] + calls[1..] == calls && ([f] + fs)[1..] == fs;
      hide OutFrame, FramesFrom, Replies, Answer, HasClose, SomeClose;
    }
  }

  lemma FrameAnswered(r: Reply, mask: Option<Mask>)
    requires |r.data| < MAX_PAYLOAD
    ensures var f := OutFrame(r.op, r.data, mask);
            Replies(f) == Answer(r) && HasClose([f]) == SomeClose([r])
  {
    var f := OutFrame(r.op, r.data, mask);
    assert f in [f] && [r][0] == r;
  }

  lemma SomeCloseSplit(r: Reply, calls: seq<Reply>)
    ensures SomeClose([r] + calls) <==> SomeClose([r]) || SomeClose(calls)
  {
    var all := [r] + calls;
    assert all[0] == r == [r][0] && forall k :: 0 <= k < |calls| ==> all[k + 1] == calls[k];
    if SomeClose(all) {
      var k :| 0 <= k < |all| && all[k].op / 0x100 % 2 == 0 && all[k].op % 16 == 8;
      if k > 0 { assert calls[k - 1] == all[k]; }
    }
  }

  /** A stream of frames in order that ends between messages leaves nothing in the buffer. */
  lemma NothingLeft(s: Receiver, fs: seq<Frame>, chunks: seq<seq<byte>>)
    requires s.defrag && s.recv == [] && s.reassLen == 0 && chunks != []
    requires AllInOrder(Idle, fs) && AdvanceAll(Idle, fs) == Idle && Concat(chunks) == Wires(fs)
    ensures var t := FeedAll(s, chunks);
            && t.events == s.events + EmitsAll(Idle, fs) && t.recv == [] && t.reassLen == 0
            && t.sent == s.sent + RepliesAll(fs) && t.closing == (s.closing || HasClose(fs))
  {
    hide FeedAll, Concat, Wires, Wire, AllInOrder, AdvanceAll, EmitsAll, InOrder, RepliesAll, HasClose;
    var next := AnyNext();
    assert Wires(fs) + [] == Wires(fs);
    StreamOfFrames(s, fs, next, [], chunks);
  }

  lemma AnyNext() returns (next: Frame)
    ensures InOrder(Idle, next.flags) && [] < Wire(next)
  {
    next := OutFrame(1, [], None);
    AloneFrame(1, [], None);
  }

  /**
   * All that was sent arrives once and in order, messages in parts put together and the control frames between
   * the parts by themselves, masked or not and however the network cuts it.
   */
  lemma SentArrives(isClient: bool, masks: nat -> Mask, outs: seq<Outgoing>, s: Receiver, chunks: seq<seq<byte>>)
    requires AllSensible(outs) && Sendable(AllCalls(outs))
    requires s.defrag && s.recv == [] && s.reassLen == 0 && chunks != []
    requires Concat(chunks) == SentWire(isClient, masks, AllCalls(outs))
    ensures var t := FeedAll(s, chunks);
            && t.events == s.events + AllEvents(outs) && t.recv == [] && t.reassLen == 0
            && t.sent == s.sent + Answers(AllCalls(outs)) && t.closing == (s.closing || SomeClose(AllCalls(outs)))
  {
    hide FeedAll, Concat, Wires, SentWire, SentFrames, FramesFrom, AllInOrder, EmitsAll, AllEvents, AllCalls;
    hide Answers, SomeClose, RepliesAll, HasClose;
    var sent := AllCalls(outs);
    SentWireIsFrames(isClient, masks, sent);
    SentIsFrom(isClient, masks, sent);
    var items := OutgoingAreItems(isClient, masks, 0, outs);
    hide AllFrames, AllMeant;
    MessagesArrive(items);
    FramesAnswered(isClient, masks, 0, sent);
    NothingLeft(s, AllFrames(items), chunks);
  }
}
