/** Messages and control frames, as a peer means them, against what the receiver hands out. */
module WebSocketMessages {
  import opened Bytes
  import opened WebSocketFrames
  import opened WebSocketReceiver

  /** One unfragmented frame, or one message in fragments with control frames in between. */
  datatype Item =
    | Single(f: Frame)
    | Fragmented(first: Frame, middle: seq<Frame>, last: Frame)

  predicate IsLone(f: Frame) { !IsFragment(f.flags) }

  predicate IsMiddle(f: Frame) {
    if IsControl(f.flags) then IsLone(f) else Opcode(f.flags) == CONTINUE && !IsFin(f.flags)
  }

  predicate WellFormed(i: Item) {
    match i
    case Single(f) => IsLone(f)
    case Fragmented(first, middle, last) =>
      && IsFirstFragment(first.flags) && !IsControl(first.flags)
      && (forall k :: 0 <= k < |middle| ==> IsMiddle(middle[k]))
      && IsFin(last.flags) && Opcode(last.flags) == CONTINUE
  }

  predicate AllWellFormed(items: seq<Item>) {
    forall k :: 0 <= k < |items| ==> WellFormed(items[k])
  }

  function FramesOf(i: Item): seq<Frame> {
    match i
    case Single(f) => [f]
    case Fragmented(first, middle, last) => [first] + (middle + [last])
  }

  function AllFrames(items: seq<Item>): seq<Frame> {
    if items == [] then [] else FramesOf(items[0]) + AllFrames(items[1..])
  }

  /** The data of the fragments, the control frames left out. */
  function Joined(middle: seq<Frame>): seq<byte> {
    if middle == [] then []
    else (if IsControl(middle[0].flags) then [] else middle[0].payload) + Joined(middle[1..])
  }

  /** The control frames, the fragments left out. */
  function Interleaved(middle: seq<Frame>): seq<Event> {
    if middle == [] then []
    else (if IsControl(middle[0].flags) then [Message(middle[0].flags, middle[0].payload)] else [])
         + Interleaved(middle[1..])
  }

  function Meant(i: Item): seq<Event> {
    match i
    case Single(f) => [Message(f.flags, f.payload)]
    case Fragmented(first, middle, last) =>
      Interleaved(middle) + [Message(WithFin(first.flags), first.payload + Joined(middle) + last.payload)]
  }

  function AllMeant(items: seq<Item>): seq<Event> {
    if items == [] then [] else Meant(items[0]) + AllMeant(items[1..])
  }

  lemma {:induction false} InOrderConcat(a: Assembly, xs: seq<Frame>, ys: seq<Frame>)
    requires AllInOrder(a, xs) && AllInOrder(AdvanceAll(a, xs), ys)
    ensures AllInOrder(a, xs + ys)
    ensures AdvanceAll(a, xs + ys) == AdvanceAll(AdvanceAll(a, xs), ys)
    ensures EmitsAll(a, xs + ys) == EmitsAll(a, xs) + EmitsAll(AdvanceAll(a, xs), ys)
    decreases |xs|
  {
    hide Advance, Emits, InOrder;
    if xs == [] {
      assert xs + ys == ys && EmitsAll(a, xs) == [];
    } else {
      var b, e := Advance(a, xs[0]), Emits(a, xs[0]);
      InOrderConcat(b, xs[1..], ys);
      assert (xs + ys)[1..] == xs[1..] + ys;
      calc {
        EmitsAll(a, xs + ys);
        e + EmitsAll(b, xs[1..] + ys);
        e + (EmitsAll(b, xs[1..]) + EmitsAll(AdvanceAll(b, xs[1..]), ys));
        { Assoc(e, EmitsAll(b, xs[1..]), EmitsAll(AdvanceAll(b, xs[1..]), ys)); }
        EmitsAll(a, xs) + EmitsAll(AdvanceAll(a, xs), ys);
      }
    }
  }

  lemma {:induction false} MiddleFrames(flags: byte, data: seq<byte>, middle: seq<Frame>, last: Frame)
    requires forall k :: 0 <= k < |middle| ==> IsMiddle(middle[k])
    requires IsFin(last.flags) && Opcode(last.flags) == CONTINUE
    ensures var a, fs := Collecting(flags, data), middle + [last];
            && AllInOrder(a, fs) && AdvanceAll(a, fs) == Idle
            && EmitsAll(a, fs) == Interleaved(middle) + [Message(WithFin(flags), data + Joined(middle) + last.payload)]
    decreases |middle|
  {
    var a, fs := Collecting(flags, data), middle + [last];
    if middle == [] {
      assert fs == [last] && fs[1..] == [];
      assert data + [] + last.payload == data + last.payload;
      assert EmitsAll(Idle, []) == [];
    } else {
      var m := middle[0];
      assert fs[1..] == middle[1..] + [last] && fs[0] == m;
      if IsControl(m.flags) {
        MiddleFrames(flags, data, middle[1..], last);
        assert [] + Joined(middle[1..]) == Joined(middle[1..]);
      } else {
        MiddleFrames(flags, data + m.payload, middle[1..], last);
        assert (data + m.payload) + Joined(middle[1..]) == data + (m.payload + Joined(middle[1..]));
      }
    }
  }

  lemma ItemFrames(i: Item)
    requires WellFormed(i)
    ensures AllInOrder(Idle, FramesOf(i)) && AdvanceAll(Idle, FramesOf(i)) == Idle
    ensures EmitsAll(Idle, FramesOf(i)) == Meant(i)
  {
    if i.Single? {
      assert FramesOf(i)[1..] == [];
      assert EmitsAll(Idle, []) == [];
    } else {
      assert FramesOf(i)[1..] == i.middle + [i.last];
      MiddleFrames(i.first.flags, i.first.payload, i.middle, i.last);
    }
  }

  /** Every message and every control frame comes out once, in order, with its own data. */
  lemma {:induction false} MessagesArrive(items: seq<Item>)
    requires AllWellFormed(items)
    ensures AllInOrder(Idle, AllFrames(items)) && AdvanceAll(Idle, AllFrames(items)) == Idle
    ensures EmitsAll(Idle, AllFrames(items)) == AllMeant(items)
  {
    if items != [] {
      ItemFrames(items[0]);
      MessagesArrive(items[1..]);
      InOrderConcat(Idle, FramesOf(items[0]), AllFrames(items[1..]));
    }
  }

  /** The fragments of a message under way, up to its last one. */
  lemma {:induction false} SplitAtLast(a: Assembly, fs: seq<Frame>)
    returns (middle: seq<Frame>, last: Frame, rest: seq<Frame>)
    requires a.Collecting? && AllInOrder(a, fs) && AdvanceAll(a, fs) == Idle
    ensures fs == middle + [last] + rest
    ensures forall k :: 0 <= k < |middle| ==> IsMiddle(middle[k])
    ensures IsFin(last.flags) && Opcode(last.flags) == CONTINUE
    ensures AllInOrder(Idle, rest) && AdvanceAll(Idle, rest) == Idle
    decreases |fs|
  {
    var f := fs[0];
    assert fs == [f] + fs[1..];
    if !IsControl(f.flags) && IsFin(f.flags) {
      middle, last, rest := [], f, fs[1..];
    } else {
      middle, last, rest := SplitAtLast(Advance(a, f), fs[1..]);
      middle := [f] + middle;
    }
  }

  /** No sequence in order that ends between messages is left out of the theorem. */
  lemma {:induction false} EveryOrderIsItems(fs: seq<Frame>) returns (items: seq<Item>)
    requires AllInOrder(Idle, fs) && AdvanceAll(Idle, fs) == Idle
    ensures AllWellFormed(items) && AllFrames(items) == fs
    decreases |fs|
  {
    if fs == [] {
      items := [];
    } else {
      var item, rest;
      if IsFragment(fs[0].flags) {
        var middle, last;
        middle, last, rest := SplitAtLast(Advance(Idle, fs[0]), fs[1..]);
        item := Fragmented(fs[0], middle, last);
        assert fs == [fs[0]] + (middle + [last] + rest) == FramesOf(item) + rest;
      } else {
        item, rest := Single(fs[0]), fs[1..];
        assert fs == FramesOf(item) + rest;
      }
      var more := EveryOrderIsItems(rest);
      items := [item] + more;
      assert items[1..] == more;
    }
  }

  /**
   * The whole way: messages written to the wire in any fragments, masked or not, cut
   * into any reads, and followed by a frame that is still arriving.
   */
  lemma EndToEnd(s: Receiver, items: seq<Item>, next: Frame, tail: seq<byte>, chunks: seq<seq<byte>>)
    requires s.defrag && s.recv == [] && s.reassLen == 0 && chunks != []
    requires AllWellFormed(items) && InOrder(Idle, next.flags) && tail < Wire(next)
    requires Concat(chunks) == Wires(AllFrames(items)) + tail
    ensures var t := FeedAll(s, chunks);
            && t.events == s.events + AllMeant(items)
            && t.recv == tail && t.reassLen == 0
            && t.sent == s.sent + RepliesAll(AllFrames(items))
  {
    MessagesArrive(items);
    StreamOfFrames(s, AllFrames(items), next, tail, chunks);
  }

  /** A final continuation of nothing: the first octet of its data is taken for the flags. */
  lemma OrphanContinuation(s: Receiver, f: Frame, rest: seq<byte>)
    requires s.defrag && IsFin(f.flags) && Opcode(f.flags) == CONTINUE
    ensures Try(At(s, Idle, Wire(f) + rest)) == Delivered(At(s, Idle, rest).(events := s.events + [
              if f.payload == [] then WrappedSize else Message(WithFin(f.payload[0]), f.payload[1..])]))
  {
    UnreadAt(s, Idle, Wire(f) + rest);
    ParseWire(f, rest);
    assert (Wire(f) + rest)[0] == f.flags;
    OrphanCollected(s, f, Wire(f) + rest, rest);
    hide Wire, Parse, Accept, At;
  }

  lemma OrphanCollected(s: Receiver, f: Frame, u: seq<byte>, rest: seq<byte>)
    requires s.defrag && IsFin(f.flags) && Opcode(f.flags) == CONTINUE
    ensures OrderFault(At(s, Idle, u), f.flags) == None
    ensures Accept(At(s, Idle, u), f.flags, f.payload, rest) == At(s, Idle, rest).(events := s.events + [
              if f.payload == [] then WrappedSize else Message(WithFin(f.payload[0]), f.payload[1..])])
  {
    UnreadAt(s, Idle, u);
    assert [] + [] + f.payload == f.payload;
    assert Collected(Idle) + rest == rest;
  }

  /**
   * A second first fragment: the octets collected so far take the place of the new message in front, and
   * as many octets at its end are unread again.
   */
  lemma SecondFirstFragment(s: Receiver, a: Assembly, f: Frame, rest: seq<byte>)
    requires s.defrag && a.Collecting? && IsFirstFragment(f.flags) && !IsControl(f.flags)
    ensures Try(At(s, a, Wire(f) + rest)) == Delivered(s.(
              recv := Collected(a) + [f.flags] + f.payload + rest, reassLen := 1 + |f.payload|))
    ensures var both, next := Collected(a) + [f.flags] + f.payload, Try(At(s, a, Wire(f) + rest)).next;
            && Valid(next) && next.recv[..next.reassLen] == both[..1 + |f.payload|]
            && Unread(next) == both[1 + |f.payload|..] + rest && |both[1 + |f.payload|..]| == |Collected(a)|
  {
    UnreadAt(s, a, Wire(f) + rest);
    ParseWire(f, rest);
    assert (Wire(f) + rest)[0] == f.flags;
    SecondCollected(s, a, f, Wire(f) + rest, rest);
    CutInFront(Collected(a) + [f.flags] + f.payload, rest, 1 + |f.payload|);
    hide Wire, Parse, Accept, At;
  }

  lemma SecondCollected(s: Receiver, a: Assembly, f: Frame, u: seq<byte>, rest: seq<byte>)
    requires s.defrag && a.Collecting? && IsFirstFragment(f.flags) && !IsControl(f.flags)
    ensures OrderFault(At(s, a, u), f.flags) == None
    ensures Accept(At(s, a, u), f.flags, f.payload, rest)
            == s.(recv := Collected(a) + [f.flags] + f.payload + rest, reassLen := 1 + |f.payload|)
  {
    UnreadAt(s, a, u);
  }

  lemma CutInFront(s: seq<byte>, rest: seq<byte>, n: nat)
    requires n <= |s|
    ensures (s + rest)[..n] == s[..n] && (s + rest)[n..] == s[n..] + rest
  {
  }
}
