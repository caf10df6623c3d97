/**
 * struct mg_coap_message: a linked option list changed in place, the composer that fills
 * a buffer of a size computed beforehand, and the parser.
 */
module CoapMessage {
  import opened Bytes
  import opened CoapCodec

  class OptionNode {
    const number: nat
    const value: seq<byte>
    var next: OptionNode?

    constructor (number: nat, value: seq<byte>)
      ensures this.number == number && this.value == value && next == null
    {
      this.number, this.value, next := number, value, null;
    }
  }

  class Message {
    var msgType: byte
    var codeClass: byte
    var codeDetail: byte
    var msgId: nat
    var token: seq<byte>
    var payload: seq<byte>
    var options: OptionNode?
    var tail: OptionNode?
    /** The list, first node first. */
    ghost var nodes: seq<OptionNode>

    constructor ()
      ensures Valid() && Contents() == [] && fresh(nodes)
    {
      msgType, codeClass, codeDetail, msgId, token, payload := 0, 0, 0, 0, [], [];
      options, tail, nodes := null, null, [];
    }

    /** next leads from each node to the following one, tail is the last node. */
    ghost predicate Linked()
      reads this, nodes
    {
      && Distinct(nodes)
      && (forall i :: 0 <= i < |nodes| ==> nodes[i].next == NodeAt(nodes, i + 1))
      && options == NodeAt(nodes, 0)
      && (nodes != [] ==> tail == nodes[|nodes| - 1])
    }

    ghost predicate Valid()
      reads this, nodes
    {
      Linked() && Sorted(Contents())
    }

    ghost function Contents(): (os: seq<Opt>)
      reads this
      ensures |os| == |nodes|
    {
      ContentsOf(nodes)
    }

    ghost function Value(): Msg
      reads this
    {
      Msg(msgType, codeClass, codeDetail, msgId, token, Contents(), payload)
    }

    /** mg_coap_free_options. */
    method FreeOptions()
      requires Linked()
      modifies this`options, this`nodes
      ensures Valid() && Contents() == []
    {
      while options != null
        invariant Linked()
        decreases |nodes|
      {
        DistinctTail(nodes);
        hide Distinct;
        assert forall j :: 0 <= j < |nodes| - 1 ==> nodes[1..][j] == nodes[j + 1];
        options := options.next;
        nodes := nodes[1..];
      }
    }

    /** mg_coap_add_option. */
    method AddOption(number: nat, value: seq<byte>) returns (node: OptionNode)
      requires Valid()
      modifies this`options, this`tail, this`nodes, nodes
      ensures Valid() && fresh(node) && node.number == number && node.value == value
      ensures Contents() == Insert(old(Contents()), Opt(number, value))
      ensures var k := Place(old(Contents()), number);
              nodes == old(nodes)[..k] + [node] + old(nodes)[k..]
    {
      node := new OptionNode(number, value);
      ghost var os := Contents();
      ghost var k := Place(os, number);
      InsertSorted(os, Opt(number, value));
      ContentsOfInserted(nodes, k, node);
      if options != null && tail.number <= number {
        assert os[|os| - 1].number == tail.number;
        PlaceIs(os, number, |os|);
      }
      if options == null || tail.number <= number {
        Append(node);
        assert nodes == old(nodes)[..k] + [node] + old(nodes)[k..];
      } else {
        var prev, current := FindPlace(number);
        LinkBefore(node, prev, current, k);
      }
    }

    /** The new node becomes the last one. */
    method Append(node: OptionNode)
      requires Linked() && node !in nodes && node.next == null
      modifies this`options, this`tail, this`nodes, nodes
      ensures Linked() && nodes == old(nodes) + [node]
    {
      DistinctInsert(nodes, |nodes|, node);
      DistinctAt(nodes, |nodes| - 1);
      hide Distinct;
      if options == null {
        options, tail := node, node;
      } else {
        tail.next := node;
        tail := node;
      }
      nodes := nodes + [node];
      assert nodes == old(nodes)[..|old(nodes)|] + [node] + old(nodes)[|old(nodes)|..];
    }

    /** The new node goes between two neighbours, or in front of the first node. */
    method LinkBefore(node: OptionNode, prev: OptionNode?, current: OptionNode?, ghost k: nat)
      requires Linked() && node !in nodes && k < |nodes|
      requires current == NodeAt(nodes, k) && prev == NodeAt(nodes, k - 1)
      modifies this`options, this`nodes, nodes, node
      ensures Linked() && nodes == old(nodes)[..k] + [node] + old(nodes)[k..]
    {
      hide Distinct;
      if prev != null {
        LinkBetween(node, prev, current, k);
      } else {
        LinkFirst(node);
        assert nodes == old(nodes)[..k] + [node] + old(nodes)[k..];
      }
    }

    method LinkFirst(node: OptionNode)
      requires Linked() && node !in nodes && nodes != []
      modifies this`options, this`nodes, node
      ensures Linked() && nodes == [node] + old(nodes)
    {
      DistinctInsert(nodes, 0, node);
      hide Distinct;
      ghost var before := nodes;
      node.next := options;
      options := node;
      nodes := [node] + before;
      assert nodes == before[..0] + [node] + before[0..];
      assert forall i :: 0 < i < |nodes| ==> nodes[i] == before[i - 1];
    }

    method LinkBetween(node: OptionNode, prev: OptionNode, current: OptionNode?, ghost k: nat)
      requires Linked() && node !in nodes && 0 < k < |nodes| && current == nodes[k] && prev == nodes[k - 1]
      modifies this`nodes, nodes, node
      ensures Linked() && nodes == old(nodes)[..k] + [node] + old(nodes)[k..]
    {
      DistinctInsert(nodes, k, node);
      DistinctAt(nodes, k - 1);
      hide Distinct;
      ghost var before := nodes;
      prev.next := node;
      node.next := current;
      nodes := before[..k] + [node] + before[k..];
      forall i | 0 <= i < |nodes| ensures nodes[i].next == NodeAt(nodes, i + 1) {
        InsertedAt(before, k, node, i);
        var old_i := if i < k then i else i - 1;
        assert i != k ==>
          nodes[i] == before[old_i] && (old_i != k - 1 ==> before[old_i].next == NodeAt(before, old_i + 1));
      }
    }

    /** The search for the first larger number, and the node in front of it. */
    method FindPlace(number: nat) returns (prev: OptionNode?, current: OptionNode?)
      requires Valid() && nodes != [] && tail.number > number
      ensures Place(Contents(), number) < |nodes|
      ensures current == NodeAt(nodes, Place(Contents(), number))
      ensures prev == NodeAt(nodes, Place(Contents(), number) - 1)
    {
      prev, current := null, options;
      ghost var os, k := Contents(), 0;
      while current != null
        invariant k <= |nodes|
        invariant current == NodeAt(nodes, k) && prev == NodeAt(nodes, k - 1)
        invariant forall i :: 0 <= i < k ==> os[i].number <= number
        decreases |nodes| - k
      {
        if current.number > number {
          break;
        }
        prev, current, k := current, current.next, k + 1;
      }
      assert tail.number == os[|os| - 1].number;
      PlaceIs(os, number, k);
    }

    /** coap_calculate_packet_size. */
    method CalculatePacketSize() returns (error: Option<ComposeError>, len: nat)
      requires Linked()
      ensures error == CheckMsg(Value())
      ensures Composable(Value()) ==> len == |Encode(Value())|
    {
      len := 4;
      if msgType > 3 { return Some(BadType), len; }
      if |token| > 8 { return Some(BadToken), len; }
      if codeClass > 7 { return Some(BadClass), len; }
      if codeDetail > 31 { return Some(BadDetail), len; }
      len := len + |token|;
      if |payload| != 0 {
        len := len + |payload| + 1;
      }
      ghost var os := Contents();
      ghost var fixed := len;
      var opt, prev: nat := options, 0;
      ghost var i := 0;
      while opt != null
        invariant i <= |nodes| && opt == NodeAt(nodes, i)
        invariant i < |nodes| ==> prev <= opt.number
        invariant OptionsFit(os, 0) <==> OptionsFit(os[i..], prev)
        invariant OptionsFit(os, 0) ==> len + |OptionsBytes(prev, os[i..])| == fixed + |OptionsBytes(0, os)|
        decreases |nodes| - i
      {
        assert os[i..][1..] == os[i + 1..] && os[i..][0] == Opt(opt.number, opt.value);
        len := len + 1 + ExtensionSize(opt.number - prev) + ExtensionSize(|opt.value|);
        if (opt.next != null && opt.number > opt.next.number)
           || |opt.value| > MAX_EXTENDED || opt.number - prev > MAX_EXTENDED {
          assert opt.next != null ==>
            && i + 1 < |nodes| && opt.next == nodes[i + 1]
            && os[i + 1..][0] == Opt(opt.next.number, opt.next.value);
          return Some(BadOptions), len;
        }
        len := len + |opt.value|;
        prev, opt, i := opt.number, opt.next, i + 1;
      }
      error := None;
    }

    /** mg_coap_compose: what was in the buffer stays in front, and the computed size is filled exactly. */
    method Compose(io: seq<byte>) returns (error: Option<ComposeError>, out: seq<byte>)
      requires Linked() && msgId < UINT16
      ensures error == CheckMsg(Value())
      ensures out == if error.None? then io + Encode(Value()) else io
    {
      hide Encode, CheckMsg, Distinct, ContentsOf;
      var size;
      error, size := CalculatePacketSize();
      if error.Some? {
        return error, io;
      }
      var buf := new byte[|io| + size];
      var ptr := PutAt(buf, 0, io);
      assert buf[..ptr] == io;
      ptr := Fill(buf, ptr);
      assert buf[..] == buf[..ptr];
      out := buf[..];
    }

    /** The writes of mg_coap_compose: they end exactly |Encode(Value())| octets further. */
    method Fill(buf: array<byte>, start: nat) returns (ptr: nat)
      requires Linked() && Composable(Value()) && start + |Encode(Value())| <= buf.Length
      modifies buf
      ensures ptr == start + |Encode(Value())|
      ensures buf[..ptr] == old(buf[..start]) + Encode(Value())
    {
      ghost var front, h := buf[..start], HeaderBytes(Value());
      ghost var o, p := OptionsBytes(0, Contents()), PayloadBytes(payload);
      ghost var e := Encode(Value());
      assert e == h + token + o + p && |e| == |h| + |token| + |o| + |p|;
      hide Encode, HeaderBytes, OptionsBytes, PayloadBytes;
      ptr := ComposeHeader(buf, start);
      ptr := PutAt(buf, ptr, token);
      ptr := ComposeOptions(buf, ptr);
      assert buf[..ptr] == front + h + token + o;
      ptr := ComposePayload(buf, ptr);
      assert buf[..ptr] == front + h + token + o + p;
      Regroup(front, h, token, o, p);
    }

    method ComposeHeader(buf: array<byte>, start: nat) returns (ptr: nat)
      requires Composable(Value()) && start + 4 <= buf.Length
      modifies buf
      ensures ptr == start + 4 && buf[..ptr] == old(buf[..start]) + HeaderBytes(Value())
    {
      ptr := PutAt(buf, start, [64 + 16 * msgType + |token|, 32 * codeClass + codeDetail]);
      ptr := PutAt(buf, ptr, BigEndian(msgId, 2));
    }

    method ComposePayload(buf: array<byte>, start: nat) returns (ptr: nat)
      requires start + |PayloadBytes(payload)| <= buf.Length
      modifies buf
      ensures ptr == start + |PayloadBytes(payload)| && buf[..ptr] == old(buf[..start]) + PayloadBytes(payload)
    {
      ptr := start;
      if |payload| != 0 {
        Assoc(buf[..start], [MARKER], payload);
        ptr := PutAt(buf, ptr, [MARKER]);
        ptr := PutAt(buf, ptr, payload);
      }
    }

    /** The option loop of mg_coap_compose. */
    method ComposeOptions(buf: array<byte>, start: nat) returns (ptr: nat)
      requires Linked() && OptionsFit(Contents(), 0)
      requires start + |OptionsBytes(0, Contents())| <= buf.Length
      modifies buf
      ensures ptr == start + |OptionsBytes(0, Contents())|
      ensures buf[..ptr] == old(buf[..start]) + OptionsBytes(0, Contents())
    {
      ghost var os := Contents();
      ghost var whole := buf[..start] + OptionsBytes(0, os);
      var opt, prev: nat := options, 0;
      ghost var i := 0;
      ptr := start;
      assert os[0..] == os;
      hide OptionsBytes, OptionBytes, OptionsFit;
      while opt != null
        invariant i <= |nodes| && opt == NodeAt(nodes, i)
        invariant OptionsFit(os[i..], prev)
        invariant ptr <= buf.Length
        invariant whole == buf[..ptr] + OptionsBytes(prev, os[i..])
        decreases |nodes| - i
      {
        ghost var before := buf[..ptr];
        assert os[i] == Opt(opt.number, opt.value);
        OptionsTurn(before, os, i, prev);
        ptr := PutOption(buf, ptr, prev, opt);
        prev, opt, i := opt.number, opt.next, i + 1;
      }
      OptionsDone(os, prev);
      assert whole == buf[..ptr];
    }

    /** The memset of mg_coap_parse; whatever list there was is forgotten. */
    method Clear()
      modifies this
      ensures Valid() && nodes == [] && token == [] && payload == []
    {
      msgType, codeClass, codeDetail, msgId, token, payload := 0, 0, 0, 0, [], [];
      options, tail, nodes := null, null, [];
    }

    /** mg_coap_parse. */
    method Parse(io: seq<byte>) returns (fault: Option<Fault>, found: set<Field>)
      modifies this
      ensures match CoapCodec.Parse(io)
              case Failed(f) => fault == Some(f)
              case Parsed(m, fields) => fault == None && found == fields && Value() == m && Valid()
    {
      hide ReadOptions, FixedFault;
      Clear();
      var start;
      fault, found, start := ParseFixed(io);
      if fault.Some? {
        return;
      }
      fault, found := ParseBody(io, start, found);
    }

    /** The fixed header and the token. */
    method ParseFixed(io: seq<byte>) returns (fault: Option<Fault>, found: set<Field>, start: nat)
      requires token == []
      modifies this`msgType, this`codeClass, this`codeDetail, this`msgId, this`token
      ensures fault == FixedFault(io)
      ensures fault == None ==>
                && |io| >= 4 && start == 4 + io[0] % 16 <= |io|
                && msgType == io[0] / 16 % 4 && codeClass == io[1] / 32 && codeDetail == io[1] % 32
                && msgId == FromBigEndian(io[2..4]) && token == io[4..start]
                && found == {TypeField, ClassField, DetailField, IdField} + (if token != [] then {TokenField} else {})
    {
      fault, found, start := None, {}, 4;
      if |io| < 4 {
        return Some(NotEnoughData), found, start;
      }
      if io[0] / 64 != 1 {
        return Some(Ignored), found, start;
      }
      msgType := io[0] / 16 % 4;
      var tokenLen := io[0] % 16;
      if tokenLen > 8 {
        return Some(FormatError), found, start;
      }
      codeClass, codeDetail := io[1] / 32, io[1] % 32;
      msgId := FromBigEndian(io[2..4]);
      found := {TypeField, ClassField, DetailField, IdField};
      if tokenLen != 0 {
        if 4 + tokenLen > |io| {
          return Some(NotEnoughData), found, start;
        }
        token := io[4..4 + tokenLen];
        found := found + {TokenField};
      }
      start := 4 + tokenLen;
    }

    /** What follows the token in mg_coap_parse. */
    method ParseBody(io: seq<byte>, start: nat, fields: set<Field>) returns (fault: Option<Fault>, found: set<Field>)
      requires Valid() && Contents() == [] && payload == [] && start <= |io|
      modifies this`options, this`tail, this`nodes, this`payload
      ensures match ReadOptions(io[start..], 0, [])
              case BadOptionList(f) => fault == Some(f)
              case OptionList(os, rest) =>
                && fault == None && Valid() && Contents() == os
                && payload == (if rest == [] then [] else rest[1..])
                && found == fields + (if io[start..] != [] then {OptionsField} else {})
                                   + (if payload != [] then {PayloadField} else {})
    {
      fault, found := None, fields;
      ReadOptionsStep(io[start..], 0, []);
      hide ReadOptions, ReadOption, Insert, Sorted;
      if start == |io| {
        return;
      }
      var ptr;
      fault, ptr := ParseOptions(io, start);
      if fault.Some? {
        return;
      }
      found := TakePayload(io, ptr, found + {OptionsField});
    }

    /** The octets behind the marker, if there is one. */
    method TakePayload(io: seq<byte>, ptr: nat, fields: set<Field>) returns (found: set<Field>)
      requires ptr <= |io| && payload == []
      modifies this`payload
      ensures payload == (if io[ptr..] == [] then [] else io[ptr..][1..])
      ensures found == fields + (if payload != [] then {PayloadField} else {})
    {
      found := fields;
      if ptr < |io| {
        assert io[ptr..][1..] == io[ptr + 1..];
        payload := io[ptr + 1..];
        if |payload| != 0 {
          found := found + {PayloadField};
        }
      }
    }

    /** One round of the loop of coap_get_options. */
    method TakeOption(io: seq<byte>, ptr: nat, prev: nat) returns (fault: Option<Fault>, next: nat, number: nat)
      requires Valid() && ptr < |io| && io[ptr] != MARKER
      modifies this`options, this`tail, this`nodes, nodes
      ensures Valid() && next <= |io| && (fault == None ==> ptr < next)
      ensures ReadOptions(io[ptr..], prev, old(Contents()))
              == if fault == None then ReadOptions(io[next..], number, Contents()) else BadOptionList(fault.value)
      ensures forall i :: 0 <= i < |nodes| ==> nodes[i] in old(nodes) || fresh(nodes[i])
    {
      hide ReadOptions, ReadOption, Insert, Place, Sorted, ContentsOf, Distinct, NodeAt;
      ReadOptionsStep(io[ptr..], prev, Contents());
      var step := ParseOption(io, ptr);
      if step.Bad? {
        return Some(step.fault), ptr, prev;
      }
      fault, number := None, (step.delta + prev) % UINT16;
      ghost var before, goal := Contents(), ReadOptions(io[ptr..], prev, Contents());
      next := |io| - |step.rest|;
      assert goal == ReadOptions(io[next..], number, Insert(before, Opt(number, step.value)));
      var node := AddOption(number, step.value);
      assert forall i :: 0 <= i < |nodes| ==> nodes[i] == node || nodes[i] in old(nodes);
    }

    /** The loop of coap_get_options, and the clean-up after an error. */
    method ParseOptions(io: seq<byte>, start: nat) returns (fault: Option<Fault>, ptr: nat)
      requires Valid() && Contents() == [] && start <= |io|
      modifies this`options, this`tail, this`nodes
      ensures Valid() && ptr <= |io|
      ensures match ReadOptions(io[start..], 0, [])
              case BadOptionList(f) => fault == Some(f) && Contents() == []
              case OptionList(os, rest) => fault == None && Contents() == os && io[ptr..] == rest
    {
      hide ReadOptions, ReadOption, Insert;
      ptr := start;
      fault := None;
      var prev: nat := 0;
      assert nodes == [];
      ghost var goal := ReadOptions(io[start..], 0, []);
      while fault == None && ptr < |io| && io[ptr] != MARKER
        invariant ptr <= |io| && Valid() && (forall i :: 0 <= i < |nodes| ==> fresh(nodes[i]))
        invariant goal == if fault == None then ReadOptions(io[ptr..], prev, Contents()) else BadOptionList(fault.value)
        decreases fault == None, |io| - ptr
      {
        fault, ptr, prev := TakeOption(io, ptr, prev);
      }
      if fault.Some? {
        FreeOptions();
      } else {
        ReadOptionsStep(io[ptr..], prev, Contents());
      }
    }
  }

  /** coap_get_ext_opt: None stands for the result -1. */
  method GetExtension(io: seq<byte>, ptr: nat, nibble: byte) returns (info: Option<(nat, nat)>)
    requires ptr <= |io|
    ensures info == ReadExtension(nibble, io[ptr..])
  {
    if nibble == 13 {
      if ptr < |io| {
        return Some((io[ptr] as int + 13, 1));
      }
      return None;
    } else if nibble == 14 {
      if ptr + 1 < |io| {
        return Some(((256 * io[ptr] + io[ptr + 1] + 269) % UINT16, 2));
      }
      return None;
    }
    return Some((nibble, 0));
  }

  lemma SliceTwice(io: seq<byte>, a: nat, b: nat)
    requires a + b <= |io|
    ensures io[a..][b..] == io[a + b..] && io[a..][..b] == io[a..a + b]
  {
  }

  /** The length and the value of an option whose delta has been read. */
  method ParseLength(io: seq<byte>, start: nat, delta: nat, nibble: byte) returns (step: OptionStep)
    requires start <= |io|
    ensures step == ReadLength(delta, nibble, io[start..])
    ensures step.Good? ==> |step.rest| <= |io| && step.rest == io[|io| - |step.rest|..]
  {
    hide ReadExtension;
    var info := GetExtension(io, start, nibble);
    if info.None? {
      return Bad(NotEnoughData);
    }
    var n, ptr := info.value.0, start + info.value.1;
    SliceTwice(io, start, info.value.1);
    if ptr + n > |io| {
      return Bad(NotEnoughData);
    }
    SliceTwice(io, ptr, n);
    return Good(delta, io[ptr..ptr + n], io[ptr + n..]);
  }

  /** The body of the loop of coap_get_options, up to the end of the option's value. */
  method ParseOption(io: seq<byte>, start: nat) returns (step: OptionStep)
    requires start < |io|
    ensures step == ReadOption(io[start..])
    ensures step.Good? ==> |step.rest| <= |io| && step.rest == io[|io| - |step.rest|..]
  {
    hide ReadExtension, ReadLength;
    var delta, length := io[start] / 16, io[start] % 16;
    if delta == 15 || length == 15 {
      return Bad(FormatError);
    }
    SliceTwice(io, start, 1);
    var info := GetExtension(io, start + 1, delta);
    if info.None? {
      return Bad(NotEnoughData);
    }
    SliceTwice(io, start, 1 + info.value.1);
    step := ParseLength(io, start + 1 + info.value.1, info.value.0, length);
  }

  ghost predicate Distinct(nodes: seq<OptionNode>) {
    forall i, j :: 0 <= i < j < |nodes| ==> nodes[i] != nodes[j]
  }

  lemma DistinctAt(nodes: seq<OptionNode>, k: int)
    requires Distinct(nodes)
    ensures 0 <= k < |nodes| ==> forall i :: 0 <= i < |nodes| && i != k ==> nodes[i] != nodes[k]
  {
  }

  lemma InsertedAt(nodes: seq<OptionNode>, k: nat, node: OptionNode, i: nat)
    requires 0 < k < |nodes| && i <= |nodes|
    ensures var after := nodes[..k] + [node] + nodes[k..];
            && after[i] == (if i < k then nodes[i] else if i == k then node else nodes[i - 1])
            && NodeAt(after, i + 1)
               == if i + 1 < k then nodes[i + 1] else if i + 1 == k then node else NodeAt(nodes, i)
  {
  }

  lemma DistinctTail(nodes: seq<OptionNode>)
    requires Distinct(nodes) && nodes != []
    ensures Distinct(nodes[1..])
  {
  }

  lemma DistinctInsert(nodes: seq<OptionNode>, k: nat, node: OptionNode)
    requires Distinct(nodes) && node !in nodes && k <= |nodes|
    ensures Distinct(nodes[..k] + [node] + nodes[k..])
  {
  }

  ghost function NodeAt(nodes: seq<OptionNode>, i: int): OptionNode? {
    if 0 <= i < |nodes| then nodes[i] else null
  }

  ghost function ContentsOf(nodes: seq<OptionNode>): (os: seq<Opt>)
    ensures |os| == |nodes|
  {
    seq(|nodes|, i requires 0 <= i < |nodes| => Opt(nodes[i].number, nodes[i].value))
  }

  lemma Regroup(a: seq<byte>, b: seq<byte>, c: seq<byte>, d: seq<byte>, e: seq<byte>)
    ensures a + b + c + d + e == a + (b + c + d + e)
  {
  }

  lemma ContentsOfInserted(nodes: seq<OptionNode>, k: nat, node: OptionNode)
    requires k <= |nodes|
    ensures ContentsOf(nodes[..k] + [node] + nodes[k..])
         == ContentsOf(nodes)[..k] + [Opt(node.number, node.value)] + ContentsOf(nodes)[k..]
  {
  }

  /** coap_get_ext_opt_size. */
  function ExtensionSize(v: nat): nat {
    if 13 <= v <= 0xFF + 13 then 1 else if 0xFF + 13 < v <= MAX_EXTENDED then 2 else 0
  }

  /** The next option in front of the others, regrouped as it is written. */
  lemma OptionsTurn(before: seq<byte>, os: seq<Opt>, i: nat, prev: nat)
    requires i < |os| && OptionsFit(os[i..], prev)
    ensures var o := os[i];
            && prev <= o.number <= prev + MAX_EXTENDED && |o.value| <= MAX_EXTENDED && OptionsFit(os[i + 1..], o.number)
            && before + OptionsBytes(prev, os[i..])
               == (before + OptionBytes(prev, o)) + OptionsBytes(o.number, os[i + 1..])
  {
    assert os[i..][1..] == os[i + 1..] && os[i..][0] == os[i];
    hide OptionBytes;
    Assoc(before, OptionBytes(prev, os[i]), OptionsBytes(os[i].number, os[i + 1..]));
  }

  lemma OptionsDone(os: seq<Opt>, prev: nat)
    ensures os[|os|..] == [] && OptionsFit([], prev) && OptionsBytes(prev, []) == []
  {
  }

  /** coap_split_opt and coap_add_opt_info together: the octets after the nibbles. */
  method PutExtension(buf: array<byte>, ptr: nat, v: nat) returns (end: nat)
    requires v <= MAX_EXTENDED && ptr + |Extension(v)| <= buf.Length
    modifies buf
    ensures end == ptr + |Extension(v)| && buf[..end] == old(buf[..ptr]) + Extension(v)
  {
    if v < 13 {
      end := ptr;
    } else if v <= 0xFF + 13 {
      end := PutAt(buf, ptr, [v - 13]);
    } else {
      end := PutAt(buf, ptr, BigEndian(v - 269, 2));
    }
  }

  /** One turn of the composer's loop. */
  method PutOption(buf: array<byte>, ptr: nat, prev: nat, opt: OptionNode) returns (end: nat)
    requires prev <= opt.number <= prev + MAX_EXTENDED && |opt.value| <= MAX_EXTENDED
    requires ptr + |OptionBytes(prev, Opt(opt.number, opt.value))| <= buf.Length
    modifies buf
    ensures end == ptr + |OptionBytes(prev, Opt(opt.number, opt.value))|
    ensures buf[..end] == old(buf[..ptr]) + OptionBytes(prev, Opt(opt.number, opt.value))
  {
    var delta, length := opt.number - prev, |opt.value|;
    Regroup(buf[..ptr], [16 * Nibble(delta) + Nibble(length)], Extension(delta), Extension(length), opt.value);
    hide Extension, Nibble;
    end := PutAt(buf, ptr, [16 * Nibble(delta) + Nibble(length)]);
    end := PutExtension(buf, end, delta);
    end := PutExtension(buf, end, length);
    end := PutAt(buf, end, opt.value);
  }
}
