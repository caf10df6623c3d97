/**
 * The WebSocket side of struct mg_connection: the receive and send buffers that
 * mg_deliver_websocket_data, mg_send_websocket_frame and mg_ws_handler update in place.
 */
module WebSocketConnection {
  import opened Bytes
  import opened WebSocketFrames
  import opened WebSocketReceiver

  /** The frame mg_send_websocket_frame writes for an opcode argument op. */
  function OutFrame(op: nat, data: seq<byte>, mask: Option<Mask>): (f: Frame)
    requires |data| < MAX_PAYLOAD
  {
    Frame((if op / 256 % 2 == 1 then 0 else FIN) + op % 16, FormFor(|data|), mask, data)
  }

  ghost predicate Sendable(sent: seq<Reply>) {
    forall k :: 0 <= k < |sent| ==> |sent[k].data| < MAX_PAYLOAD
  }

  /** The octets of the frames sent; the n-th is masked with the n-th mask drawn, if at all. */
  ghost function SentWire(isClient: bool, masks: nat -> Mask, sent: seq<Reply>): seq<byte>
    requires Sendable(sent)
  {
    if sent == [] then []
    else
      var n := |sent| - 1;
      SentWire(isClient, masks, sent[..n])
        + Wire(OutFrame(sent[n].op, sent[n].data, if isClient then Some(masks(n)) else None))
  }

  class Connection {
    var recv: seq<byte>
    var reassLen: nat
    var events: seq<Event>
    var closing: bool
    var send: seq<byte>
    const defrag: bool
    /** Client connections (no listener) mask what they send. */
    const isClient: bool
    /** The mask drawn for the n-th frame sent. */
    const masks: nat -> Mask
    var drawn: nat
    ghost var sent: seq<Reply>

    constructor (defrag: bool, isClient: bool, masks: nat -> Mask)
      ensures State() == Receiver([], 0, defrag, [], [], false) && send == []
      ensures Valid() && this.isClient == isClient && this.masks == masks
    {
      recv, reassLen, events, closing, send, drawn, sent := [], 0, [], false, [], 0, [];
      this.defrag, this.isClient, this.masks := defrag, isClient, masks;
    }

    ghost function State(): Receiver
      reads this
    {
      Receiver(recv, reassLen, defrag, events, sent, closing)
    }

    /** The send buffer holds exactly the frames sent so far. */
    ghost predicate Valid()
      reads this
    {
      && reassLen <= |recv| < MAX_PAYLOAD
      && drawn == |sent| && Sendable(sent)
      && send == SentWire(isClient, masks, sent)
    }

    /** mg_send_ws_header: pos is where the payload will start, or 0 for no mask. */
    method SendHeader(op: nat, len: nat, mask: Mask, ghost data: seq<byte>) returns (pos: nat)
      requires |data| == len < MAX_PAYLOAD
      modifies this`send
      ensures send == old(send) + Header(OutFrame(op, data, if isClient then Some(mask) else None))
      ensures pos == if isClient then |send| else 0
    {
      var first := (if op / 256 % 2 == 1 then 0 else FIN) + op % 16;
      var second: byte;
      var extra: seq<byte>;
      if len < 126 {
        second, extra := len, [];
      } else if len < 65535 {
        second, extra := 126, BigEndian(len, 2);
      } else {
        second, extra := 127, BigEndian(len / 0x1_0000_0000, 4) + BigEndian(len % 0x1_0000_0000, 4);
        PowersOf256();
        BigEndianHalves(len);
      }
      if isClient {
        send := send + ([first, second + 128] + extra);
        send := send + mask;
        pos := |send|;
        assert send == old(send) + ([first, second + 128] + extra + mask);
      } else {
        send := send + ([first, second] + extra);
        pos := 0;
        assert [first, second] + extra == [first, second] + extra + [];
      }
    }

    /** mg_ws_mask_frame: what was sent after pos is masked where it lies. */
    method MaskFrame(pos: nat, mask: Mask)
      requires pos <= |send|
      modifies this`send
      ensures send == if pos == 0 then old(send) else old(send)[..pos] + Masked(mask, old(send)[pos..])
    {
      if pos == 0 {
        return;
      }
      var i := 0;
      hide Masked, Xor;
      NoneMasked(send, pos, mask);
      while i < |send| - pos
        invariant |send| == |old(send)| && i <= |send| - pos
        invariant send == MaskedSoFar(old(send), pos, mask, i)
      {
        OneMasked(old(send), pos, mask, i);
        send := send[pos + i := Xor(send[pos + i], mask[i % 4])];
        i := i + 1;
      }
    }

    /** Header, payload and mask of mg_send_websocket_frame. */
    method WriteFrame(op: nat, data: seq<byte>, mask: Mask)
      requires |data| < MAX_PAYLOAD
      modifies this`send
      ensures send == old(send) + Wire(OutFrame(op, data, if isClient then Some(mask) else None))
    {
      ghost var f := OutFrame(op, data, if isClient then Some(mask) else None);
      ghost var h := old(send) + Header(f);
      var pos := SendHeader(op, |data|, mask, data);
      send := send + data;
      assert send == h + data && send[..|h|] == h && send[|h|..] == data;
      MaskFrame(pos, mask);
      assert send == h + MaskedPayload(f);
    }

    /** mg_send_websocket_frame. */
    method SendFrame(op: nat, data: seq<byte>)
      requires Valid() && |data| < MAX_PAYLOAD
      modifies this`send, this`drawn, this`sent, this`closing
      ensures Valid()
      ensures sent == old(sent) + [Reply(op, data)] && closing == (old(closing) || op == CLOSE)
    {
      var mask := masks(drawn);
      WriteFrame(op, data, mask);
      if op == CLOSE {
        closing := true;
      }
      drawn := drawn + 1;
      sent := sent + [Reply(op, data)];
      assert sent[..|sent| - 1] == old(sent);
    }

    /** mg_ws_close, with a payload of known length. */
    method Close(data: seq<byte>)
      requires Valid() && |data| < MAX_PAYLOAD
      modifies this`send, this`drawn, this`sent, this`closing
      ensures Valid() && State() == SendClose(old(State()), data)
    {
      SendFrame(CLOSE, data);
      closing := true;
    }

    /** The unmasking loop of mg_deliver_websocket_data. */
    method Unmask(from: nat, n: nat, mask: Mask)
      requires from + n <= |recv|
      modifies this`recv
      ensures recv == old(recv)[..from] + Masked(mask, old(recv)[from..from + n]) + old(recv)[from + n..]
    {
      var i := 0;
      ghost var masked := Masked(mask, recv[from..from + n]);
      assert recv == recv[..from] + masked[..0] + recv[from..];
      while i < n
        invariant |recv| == |old(recv)| && i <= n
        invariant recv == old(recv)[..from] + masked[..i] + old(recv)[from + i..]
      {
        ReplaceOne(old(recv)[..from], masked, i, old(recv)[from + i..]);
        assert old(recv)[from + i..][1..] == old(recv)[from + i + 1..];
        recv := recv[from + i := Xor(recv[from + i], mask[i % 4])];
        i := i + 1;
      }
    }

    /** The lengths read from new_data; headerLen stays 0 until the whole header is there. */
    static method ReadLengths(u: seq<byte>) returns (headerLen: nat, maskLen: nat, dataLen: nat)
      ensures Lengths(u, headerLen, maskLen, dataLen)
    {
      headerLen, maskLen, dataLen := 0, 0, 0;
      if |u| >= 2 {
        var len := u[1] % 128;
        maskLen := if u[1] >= 128 then 4 else 0;
        if len < 126 && |u| >= maskLen {
          dataLen := len;
          headerLen := 2 + maskLen;
        } else if len == 126 && |u| >= 4 + maskLen {
          headerLen := 4 + maskLen;
          dataLen := FromBigEndian(u[2..4]);
          PowersOf256();
          FromBigEndianBound(u[2..4]);
        } else if |u| >= 10 + maskLen {
          headerLen := 10 + maskLen;
          dataLen := FromBigEndian(u[2..6]) * 0x1_0000_0000 + FromBigEndian(u[6..10]);
          PowersOf256();
          FromBigEndianConcat(u[2..6], u[6..10]);
          assert u[2..6] + u[6..10] == u[2..10];
          FromBigEndianBound(u[2..10]);
        }
      }
    }

    /** mg_deliver_websocket_data. */
    method DeliverData() returns (ok: bool)
      requires Valid()
      modifies this
      ensures Valid()
      ensures ok == Try(old(State())).Delivered? && State() == Deliver(old(State()))
    {
      var newData := reassLen;
      var newDataLen := |recv| - reassLen;
      if newDataLen == 0 {
        assert Unread(State()) == [];
        return false;
      }
      var flags := recv[newData];
      var reass := IsFragment(flags) && defrag;
      if reass && IsControl(flags) {
        Close(Reason(FragmentedControl));
        return false;
      } else if !reass && !IsControl(flags) && reassLen > 0 {
        Close(Reason(NotAContinuation));
        return false;
      }
      ok := DeliverInOrder(flags);
    }

    /** The part of mg_deliver_websocket_data after the checks of the first octet. */
    method DeliverInOrder(flags: byte) returns (ok: bool)
      requires Valid() && reassLen < |recv| && flags == recv[reassLen] && OrderFault(State(), flags).None?
      modifies this
      ensures Valid()
      ensures ok == Try(old(State())).Delivered? && State() == Deliver(old(State()))
    {
      hide Try, Lengths, Accept, PayloadOf, OrderFault, Sum64;
      var headerLen, maskLen, dataLen := ReadLengths(recv[reassLen..]);
      var frameLen := Sum64(headerLen, dataLen);
      ok := frameLen > 0 && frameLen <= |recv| - reassLen;
      TryByLengths(State(), headerLen, maskLen, dataLen);
      if frameLen < headerLen || frameLen < dataLen {
        Close(Reason(Overflowed));
        return false;
      }
      if ok {
        DeliverFrame(flags, maskLen, reassLen + headerLen, dataLen);
      }
    }

    /** The payload of a whole frame is unmasked in place. */
    method UnmaskPayload(maskLen: nat, data: nat, dataLen: nat)
      requires Valid() && (maskLen == 0 || maskLen == 4)
      requires reassLen + 2 + maskLen <= data <= data + dataLen <= |recv|
      modifies this`recv
      ensures Valid() && |recv| == |old(recv)| && recv[..data] == old(recv)[..data]
      ensures recv[data..data + dataLen] == PayloadOf(old(recv)[reassLen..], data - reassLen, maskLen, dataLen)
      ensures recv[data + dataLen..] == old(recv)[data + dataLen..]
    {
      PayloadInPlace(recv, reassLen, data, maskLen, dataLen);
      hide *;
      if maskLen > 0 {
        var mask := recv[data - 4..data];
        ghost var masked := Masked(mask, recv[data..data + dataLen]);
        MiddleReplaced(recv, data, dataLen, masked);
        Unmask(data, dataLen, mask);
      }
    }

    /** A whole frame lies behind the collected octets. */
    method DeliverFrame(flags: byte, maskLen: nat, data: nat, dataLen: nat)
      requires Valid() && (maskLen == 0 || maskLen == 4)
      requires reassLen + 2 + maskLen <= data <= data + dataLen <= |recv| && recv[reassLen] == flags
      modifies this
      ensures Valid()
      ensures State() == Accept(old(State()), flags,
                PayloadOf(old(recv)[old(reassLen)..], data - old(reassLen), maskLen, dataLen),
                old(recv)[data + dataLen..])
    {
      ghost var s := State();
      hide PayloadOf, Collect, Hand;
      UnmaskPayload(maskLen, data, dataLen);
      assert recv[..data][..reassLen] == recv[..reassLen] && s.recv[..data][..reassLen] == s.recv[..reassLen];
      assert recv[..data][reassLen] == recv[reassLen] && s.recv[..data][reassLen] == s.recv[reassLen];
      if IsFragment(flags) && defrag {
        CollectFragment(flags, data, dataLen, s);
      } else {
        HandFrame(flags, data, dataLen, s);
      }
    }

    /** The branch for fragments: memmove over the header, and delivery after the last one. */
    method CollectFragment(flags: byte, data: nat, dataLen: nat, ghost s: Receiver)
      requires Valid() && reassLen + 2 <= data <= data + dataLen <= |recv|
      requires State() == s.(recv := recv) && |s.recv| == |recv| && s.recv[..reassLen] == recv[..reassLen]
      requires recv[reassLen] == flags
      modifies this`recv, this`reassLen, this`events
      ensures Valid() && State() == Collect(s, flags, old(recv)[data..data + dataLen], old(recv)[data + dataLen..])
    {
      ghost var kept := Kept(s, flags, recv[data..data + dataLen]);
      ghost var rest := recv[data + dataLen..];
      var newData := reassLen;
      if IsFirstFragment(flags) {
        newData := newData + 1;
        reassLen := 1;
      }
      KeptInFront(s, flags, recv, newData, data, dataLen);
      hide Kept;
      recv := recv[..newData] + recv[data..];
      reassLen := reassLen + dataLen;
      if IsFin(flags) {
        HandCollected(kept, rest);
      }
    }

    /** The last fragment is in: the message is handed over and its octets removed. */
    method HandCollected(ghost kept: seq<byte>, ghost rest: seq<byte>)
      requires Valid() && recv == kept + rest && reassLen == |kept|
      modifies this`recv, this`reassLen, this`events
      ensures Valid() && recv == rest && reassLen == 0
      ensures events == old(events) + [if kept == [] then WrappedSize else Message(WithFin(kept[0]), kept[1..])]
    {
      assert recv[reassLen..] == rest;
      if reassLen == 0 {
        events := events + [WrappedSize];
      } else {
        assert recv[1..reassLen] == kept[1..];
        events := events + [Message(WithFin(recv[0]), recv[1..reassLen])];
      }
      recv := recv[reassLen..];
      reassLen := 0;
    }

    /** The branch for whole frames: automatic replies, delivery, and memmove over the frame. */
    method HandFrame(flags: byte, data: nat, dataLen: nat, ghost s: Receiver)
      requires Valid() && reassLen + 2 <= data <= data + dataLen <= |recv|
      requires State() == s.(recv := recv) && |s.recv| == |recv| && s.recv[..reassLen] == recv[..reassLen]
      modifies this
      ensures Valid() && State() == Hand(s, flags, old(recv)[data..data + dataLen], old(recv)[data + dataLen..])
    {
      var payload := recv[data..data + dataLen];
      if Opcode(flags) == PING {
        SendFrame(PONG, payload);
      } else if Opcode(flags) == CLOSE {
        Close(payload);
      }
      events := events + [Message(flags, payload)];
      recv := recv[..reassLen] + recv[data + dataLen..];
    }

    /** MG_EV_RECV in mg_ws_handler, after the network layer has appended what it read. */
    method Receive(chunk: seq<byte>)
      requires Valid() && |recv| + |chunk| < MAX_PAYLOAD
      modifies this
      ensures Valid() && State() == Drain(Feed(old(State()), chunk))
    {
      recv := recv + chunk;
      ghost var s := State();
      var again := true;
      while again
        invariant Valid()
        invariant again ==> Settle(State()) == Settle(s)
        invariant !again ==> State() == Drain(s)
        decreases again, |recv|
      {
        ghost var before := State();
        again := DeliverData();
        TryShrinksIfDelivered(before);
      }
    }
  }

  lemma PayloadInPlace(recv: seq<byte>, reassLen: nat, data: nat, maskLen: nat, n: nat)
    requires reassLen + maskLen <= data <= data + n <= |recv| && (maskLen == 0 || maskLen == 4)
    ensures PayloadOf(recv[reassLen..], data - reassLen, maskLen, n)
            == if maskLen == 0 then recv[data..data + n] else Masked(recv[data - 4..data], recv[data..data + n])
  {
    hide Masked;
    var h := data - reassLen;
    assert recv[reassLen..] == recv[reassLen..|recv|];
    Slice(recv, reassLen, |recv|, h, h + n);
    if maskLen == 4 { Slice(recv, reassLen, |recv|, h - 4, h); }
  }

  /** The first i octets behind pos are masked. */
  ghost function MaskedSoFar(sent: seq<byte>, pos: nat, mask: Mask, i: nat): (s: seq<byte>)
    requires pos + i <= |sent|
    ensures |s| == |sent|
    ensures i == |sent| - pos ==> s == sent[..pos] + Masked(mask, sent[pos..])
  {
    sent[..pos] + Masked(mask, sent[pos..])[..i] + sent[pos + i..]
  }

  lemma NoneMasked(sent: seq<byte>, pos: nat, mask: Mask)
    requires pos <= |sent|
    ensures MaskedSoFar(sent, pos, mask, 0) == sent
  {
    assert sent == sent[..pos] + [] + sent[pos..];
    hide Masked;
  }

  lemma OneMasked(sent: seq<byte>, pos: nat, mask: Mask, i: nat)
    requires pos + i < |sent|
    ensures var s := MaskedSoFar(sent, pos, mask, i);
            s[pos + i := Xor(s[pos + i], mask[i % 4])] == MaskedSoFar(sent, pos, mask, i + 1)
  {
    var masked := Masked(mask, sent[pos..]);
    assert masked[i] == Xor(sent[pos + i], mask[i % 4]);
    hide Masked, Xor;
    ReplaceOne(sent[..pos], masked, i, sent[pos + i..]);
    assert sent[pos + i..][1..] == sent[pos + i + 1..];
  }

  lemma ReplaceOne(a: seq<byte>, m: seq<byte>, i: nat, rest: seq<byte>)
    requires i < |m| && rest != []
    ensures var s := a + m[..i] + rest;
            s[|a| + i] == rest[0] && s[|a| + i := m[i]] == a + m[..i + 1] + rest[1..]
  {
  }

  lemma MiddleReplaced(s: seq<byte>, from: nat, n: nat, m: seq<byte>)
    requires from + n <= |s| && |m| == n
    ensures var t := s[..from] + m + s[from + n..];
            && |t| == |s| && t[..from] == s[..from] && t[from..from + n] == m && t[from + n..] == s[from + n..]
  {
  }

  /** The header is moved over: the collected octets and the new data come together. */
  lemma KeptInFront(s: Receiver, flags: byte, recv: seq<byte>, newData: nat, data: nat, dataLen: nat)
    requires WebSocketReceiver.Valid(s) && s.reassLen + 2 <= data && data + dataLen <= |recv|
    requires |s.recv| == |recv| && s.recv[..s.reassLen] == recv[..s.reassLen] && recv[s.reassLen] == flags
    requires newData == s.reassLen + (if IsFirstFragment(flags) then 1 else 0)
    ensures var kept := Kept(s, flags, recv[data..data + dataLen]);
            recv[..newData] + recv[data..] == kept + recv[data + dataLen..] && |kept| == newData + dataLen
  {
    assert recv[data..] == recv[data..data + dataLen] + recv[data + dataLen..];
    assert IsFirstFragment(flags) ==> recv[..newData] == recv[..s.reassLen] + [flags];
  }

  function PayloadOf(u: seq<byte>, h: nat, maskLen: nat, n: nat): seq<byte>
    requires maskLen <= h <= h + n <= |u| && (maskLen == 0 || maskLen == 4)
  {
    if maskLen == 0 then u[h..h + n] else Masked(u[h - 4..h], u[h..h + n])
  }

  /** What ReadLengths promises about its results. */
  ghost predicate Lengths(u: seq<byte>, h: nat, maskLen: nat, n: nat) {
    && (maskLen == 0 || maskLen == 4)
    && n < WORD
    && (if h == 0 then n == 0 && (|u| < 2 || |u| < HeaderSize(u))
        else
          && |u| >= 2 && h == HeaderSize(u) <= 14 && maskLen == h - 2 - ExtraLength(FormAt(u))
          && (if |u| >= h then n == PayloadSize(u) else n < 126))
  }

  function Sum64(a: nat, b: nat): nat { (a + b) % WORD }

  lemma Sum64Cases(a: nat, b: nat)
    requires a < WORD && b < WORD
    ensures Sum64(a, b) == if a + b < WORD then a + b else a + b - WORD
  {
  }

  /** The lengths and their 64-bit sum settle what has arrived. */
  lemma LengthsDecide(u: seq<byte>, h: nat, maskLen: nat, n: nat)
    requires Lengths(u, h, maskLen, n)
    ensures Sum64(h, n) < h || Sum64(h, n) < n <==> Parse(u).Overflow?
    ensures !Parse(u).Overflow? ==> (0 < Sum64(h, n) <= |u| <==> Parse(u).Whole?)
    ensures Parse(u).Whole? ==> 2 + maskLen <= h <= h + n <= |u|
    ensures Parse(u).Whole? ==> Parse(u) == Whole(u[0], PayloadOf(u, h, maskLen, n), u[h + n..])
  {
    Sum64Cases(h, n);
    if Parse(u).Whole? {
      WholePayload(u, maskLen);
    }
    hide PayloadOf, Sum64;
  }

  lemma WholePayload(u: seq<byte>, maskLen: nat)
    requires Parse(u).Whole? && maskLen == HeaderSize(u) - 2 - ExtraLength(FormAt(u))
    ensures var h, n := HeaderSize(u), PayloadSize(u);
            && 2 + maskLen <= h <= h + n <= |u| && (maskLen == 0 || maskLen == 4)
            && Parse(u) == Whole(u[0], PayloadOf(u, h, maskLen, n), u[h + n..])
  {
    hide Masked;
  }

  lemma TryByLengths(s: Receiver, h: nat, maskLen: nat, n: nat)
    requires WebSocketReceiver.Valid(s) && Unread(s) != [] && OrderFault(s, Unread(s)[0]).None?
    requires Lengths(Unread(s), h, maskLen, n)
    ensures var u, sum := Unread(s), Sum64(h, n);
            if sum < h || sum < n then Try(s) == Faulty(Overflowed)
            else if 0 < sum <= |u| then
              && 2 + maskLen <= h <= h + n <= |u| && u[h + n..] == s.recv[s.reassLen + h + n..]
              && Try(s) == Delivered(Accept(s, u[0], PayloadOf(u, h, maskLen, n), u[h + n..]))
            else Try(s) == Waiting
  {
    LengthsDecide(Unread(s), h, maskLen, n);
  }

  lemma TryShrinksIfDelivered(s: Receiver)
    requires WebSocketReceiver.Valid(s)
    ensures Try(s).Delivered? ==> |Try(s).next.recv| < |s.recv|
  {
    if Try(s).Delivered? {
      TryShrinks(s);
    }
  }
}
