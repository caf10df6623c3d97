/**
 * DNS names in mongoose.c (sections 3.1 and 4.1.4 of RFC 1035): mg_dns_encode_name writes labels,
 * mg_dns_uncompress_name reads them back, following compression pointers.
 */
module DnsName {
  import opened Bytes

  const DOT: byte := 46
  /** The most pointers that are followed. */
  const MAX_HOPS := 15

  // ---------------------------------------------------------------- labels

  function ToDot(s: seq<byte>): (n: nat)
    ensures n <= |s| && DOT !in s[..(n)] && (n < |s| ==> s[n] == DOT)
  {
    if s == [] || s[0] == DOT then 0
    else
      assert s[..1 + ToDot(s[1..])] == [s[0]] + s[1..][..ToDot(s[1..])];
      1 + ToDot(s[1..])
  }

  /** The parts between the dots: one more than there are dots. */
  function Labels(name: seq<byte>): (ls: seq<seq<byte>>)
    ensures ls != []
    decreases |name|
  {
    var n := ToDot(name);
    if n == |name| then [name] else [name[..n]] + Labels(name[n + 1..])
  }

  function Join(ls: seq<seq<byte>>): seq<byte> {
    if ls == [] then [] else if |ls| == 1 then ls[0] else ls[0] + [DOT] + Join(ls[1..])
  }

  lemma {:induction false} JoinLabels(name: seq<byte>)
    ensures Join(Labels(name)) == name
    decreases |name|
  {
    hide Labels, Join, ToDot;
    var n := ToDot(name);
    LabelsStep(name);
    if n < |name| {
      JoinLabels(name[n + 1..]);
      JoinMore(name[..n], Labels(name[n + 1..]));
      assert name == name[..n] + [DOT] + name[n + 1..];
    } else {
      JoinMore(name, []);
      assert name[..n] == name && [name] + [] == [name];
    }
  }

  lemma JoinMore(first: seq<byte>, more: seq<seq<byte>>)
    ensures Join([first] + more) == if more == [] then first else first + [DOT] + Join(more)
  {
    assert ([first] + more)[1..] == more;
  }

  function LabelOctets(ls: seq<seq<byte>>): seq<byte>
    requires forall i :: 0 <= i < |ls| ==> |ls[i]| < 256
  {
    if ls == [] then [] else [|ls[0]|] + ls[0] + LabelOctets(ls[1..])
  }

  predicate AtMost(ls: seq<seq<byte>>, n: nat) {
    forall i :: 0 <= i < |ls| ==> |ls[i]| <= n
  }

  predicate NonEmpty(ls: seq<seq<byte>>) {
    forall i :: 0 <= i < |ls| ==> ls[i] != []
  }

  /** What mg_dns_encode_name appends; None is its answer -1. */
  function Encoded(name: seq<byte>): Option<seq<byte>> {
    if AtMost(Labels(name), 127) then Some(LabelOctets(Labels(name)) + [0]) else None
  }

  // ---------------------------------------------------------------- reading a name

  /** The offset of a compression pointer. */
  function Offset(high: byte, low: byte): nat
    requires high >= 0xC0
  {
    (high as nat - 0xC0) * 256 + low
  }

  /** The loop of mg_dns_uncompress_name from octet data on; the answer 0 is the empty sequence. */
  function Uncompressed(pkt: seq<byte>, data: nat, out: seq<byte>, dstLen: nat, hops: nat): (r: seq<byte>)
    requires data < |pkt| && |out| <= dstLen && hops <= MAX_HOPS
    ensures |r| <= dstLen
    decreases MAX_HOPS - hops, |pkt| - data
  {
    var c, next := pkt[data], data + 1;
    if c == 0 then (if out == [] then [] else out[..|out| - 1])
    else if next >= |pkt| then []
    else if c >= 0xC0 then
      var off := Offset(c, pkt[next]);
      if off >= |pkt| || hops + 1 > MAX_HOPS then []
      else Uncompressed(pkt, off, out, dstLen, hops + 1)
    else if c > 63 then []
    else
      var leeway := dstLen - |out|;
      var n := if c > leeway then leeway else c;
      if next + n >= |pkt| then []
      else
        var out' := out + pkt[next..next + n];
        if leeway == n then out' else Uncompressed(pkt, next + n, out' + [DOT], dstLen, hops)
  }

  // ---------------------------------------------------------------- reading back what was written

  /** The part of a name that fits. */
  function Fit(name: seq<byte>, dstLen: nat): seq<byte> {
    if |name| <= dstLen then name else name[..dstLen]
  }

  /** The packet holds the labels ls and the end of the name from octet data on. */
  ghost predicate Holds(pkt: seq<byte>, data: nat, ls: seq<seq<byte>>) {
    AtMost(ls, 127) && data <= |pkt| && LabelOctets(ls) + [0] <= pkt[data..]
  }

  lemma PrefixSplits(a: seq<byte>, b: seq<byte>, s: seq<byte>)
    requires a + b <= s
    ensures a <= s && b <= s[|a|..]
  {
    assert a == (a + b)[..|a|] && b == (a + b)[|a|..];
  }

  lemma HoldsNext(pkt: seq<byte>, data: nat, ls: seq<seq<byte>>)
    requires Holds(pkt, data, ls) && ls != []
    ensures var n, next := |ls[0]|, data + 1;
            && n <= 127 && next + n < |pkt| && pkt[data] == n && pkt[next..next + n] == ls[0]
            && Holds(pkt, next + n, ls[1..])
  {
    var n, rest := |ls[0]|, LabelOctets(ls[1..]) + [0];
    var octets := LabelOctets(ls) + [0];
    assert octets == ([n] + ls[0]) + rest;
    hide LabelOctets;
    PrefixSplits([n] + ls[0], rest, pkt[data..]);
    PrefixSplits([n], ls[0], pkt[data..]);
    assert pkt[data] == pkt[data..][0] == n;
    assert pkt[data..][1..] == pkt[data + 1..];
    assert pkt[data + 1..][..n] == pkt[data + 1..data + 1 + n];
    assert pkt[data..][1 + n..] == pkt[data + 1 + n..];
  }

  lemma HoldsEnd(pkt: seq<byte>, data: nat)
    requires Holds(pkt, data, [])
    ensures data < |pkt| && pkt[data] == 0
  {
    assert LabelOctets([]) + [0] == [0];
    assert pkt[data] == pkt[data..][0];
  }

  lemma LabelStep(pkt: seq<byte>, data: nat, out: seq<byte>, dstLen: nat, hops: nat)
    requires data < |pkt| && |out| <= dstLen && hops <= MAX_HOPS
    requires 1 <= pkt[data] <= 63 && data + 1 + pkt[data] < |pkt|
    ensures var n, next, leeway := pkt[data], data + 1, dstLen - |out|;
            Uncompressed(pkt, data, out, dstLen, hops)
            == if n >= leeway then out + pkt[next..next + leeway]
               else Uncompressed(pkt, next + n, out + pkt[next..next + n] + [DOT], dstLen, hops)
  {
  }

  lemma EndStep(pkt: seq<byte>, data: nat, name: seq<byte>, dstLen: nat, hops: nat)
    requires data < |pkt| && pkt[data] == 0 && |name + [DOT]| <= dstLen && hops <= MAX_HOPS
    ensures Uncompressed(pkt, data, name + [DOT], dstLen, hops) == name
  {
    assert (name + [DOT])[..|name|] == name;
  }

  lemma JoinStep(out: seq<byte>, ls: seq<seq<byte>>)
    requires ls != []
    ensures |ls| == 1 ==> out + Join(ls) == out + ls[0] && ls[1..] == []
    ensures |ls| > 1 ==> out + Join(ls) == out + ls[0] + [DOT] + Join(ls[1..])
    ensures |out + Join(ls)| >= |out + ls[0]|
  {
  }

  /** Labels of 1 to 63 octets are read back, as far as there is room. */
  lemma {:induction false} LabelsReadBack(pkt: seq<byte>, data: nat, ls: seq<seq<byte>>, out: seq<byte>, dstLen: nat,
                                          hops: nat)
    requires Holds(pkt, data, ls) && ls != [] && AtMost(ls, 63) && NonEmpty(ls)
    requires |out| <= dstLen && hops <= MAX_HOPS
    ensures data < |pkt| && Uncompressed(pkt, data, out, dstLen, hops) == Fit(out + Join(ls), dstLen)
    decreases |ls|
  {
    hide Uncompressed, Holds, Join, Fit, LabelOctets, AtMost, NonEmpty;
    GoodLabels(ls);
    HoldsNext(pkt, data, ls);
    var n, leeway, next := |ls[0]|, dstLen - |out|, data + 1;
    LabelStep(pkt, data, out, dstLen, hops);
    JoinStep(out, ls);
    if n >= leeway {
      SlicePart(pkt, next, ls[0], leeway);
      FitsPart(out, ls, leeway);
    } else if |ls| == 1 {
      HoldsEnd(pkt, next + n);
      EndStep(pkt, next + n, out + ls[0], dstLen, hops);
      FitsWhole(out + ls[0], dstLen);
    } else {
      LabelsReadBack(pkt, next + n, ls[1..], out + ls[0] + [DOT], dstLen, hops);
    }
  }

  lemma GoodLabels(ls: seq<seq<byte>>)
    requires ls != [] && AtMost(ls, 63) && NonEmpty(ls)
    ensures 1 <= |ls[0]| <= 63 && AtMost(ls[1..], 63) && NonEmpty(ls[1..])
  {
  }

  lemma SlicePart(pkt: seq<byte>, from: nat, text: seq<byte>, k: nat)
    requires k <= |text| && from + |text| <= |pkt| && pkt[from..from + |text|] == text
    ensures pkt[from..from + k] == text[..k]
  {
    assert pkt[from..from + |text|][..k] == pkt[from..from + k];
  }

  lemma FitsWhole(name: seq<byte>, dstLen: nat)
    requires |name| <= dstLen
    ensures Fit(name, dstLen) == name
  {
  }

  lemma FitsPart(out: seq<byte>, ls: seq<seq<byte>>, leeway: nat)
    requires ls != [] && leeway <= |ls[0]|
    ensures Fit(out + Join(ls), |out| + leeway) == out + ls[0][..leeway]
  {
    assert Join(ls)[..leeway] == ls[0][..leeway];
    assert (out + Join(ls))[..|out| + leeway] == out + Join(ls)[..leeway];
  }

  /** An empty or a longer label is never read back: the name comes out shorter. */
  lemma {:induction false} BadLabelShortens(pkt: seq<byte>, data: nat, ls: seq<seq<byte>>, out: seq<byte>,
                                            dstLen: nat, hops: nat)
    requires Holds(pkt, data, ls) && ls != [] && !(AtMost(ls, 63) && NonEmpty(ls))
    requires out + Join(ls) != [] && |out + Join(ls)| <= dstLen && hops <= MAX_HOPS
    ensures data < |pkt| && |Uncompressed(pkt, data, out, dstLen, hops)| < |out + Join(ls)|
    decreases |ls|
  {
    hide Uncompressed, Holds, Join, LabelOctets, AtMost, NonEmpty;
    HoldsNext(pkt, data, ls);
    var n, next := |ls[0]|, data + 1;
    JoinStep(out, ls);
    if 1 <= n <= 63 {
      LabelStep(pkt, data, out, dstLen, hops);
      RestIsBad(ls);
      BadLabelShortens(pkt, next + n, ls[1..], out + ls[0] + [DOT], dstLen, hops);
    } else {
      BadStep(pkt, data, out, dstLen, hops);
    }
  }

  /** An octet that is no length of a label, or a zero, ends the name. */
  lemma BadStep(pkt: seq<byte>, data: nat, out: seq<byte>, dstLen: nat, hops: nat)
    requires data + 1 < |pkt| && |out| <= dstLen && hops <= MAX_HOPS
    requires pkt[data] == 0 || 63 < pkt[data] < 0xC0
    ensures var r := Uncompressed(pkt, data, out, dstLen, hops); r == [] || |r| < |out|
  {
  }

  lemma RestIsBad(ls: seq<seq<byte>>)
    requires ls != [] && 1 <= |ls[0]| <= 63 && !(AtMost(ls, 63) && NonEmpty(ls))
    ensures |ls| > 1 && !(AtMost(ls[1..], 63) && NonEmpty(ls[1..]))
  {
    var i :| 0 <= i < |ls| && !(1 <= |ls[i]| <= 63);
    assert ls[1..][i - 1] == ls[i];
  }

  /** A name of any length comes back, cut to the room there is, if its labels have 1 to 63 octets. */
  lemma NameReadBack(before: seq<byte>, name: seq<byte>, after: seq<byte>, dstLen: nat)
    requires AtMost(Labels(name), 63) && NonEmpty(Labels(name))
    ensures Encoded(name).Some?
    ensures var pkt := before + Encoded(name).value + after;
            Uncompressed(pkt, |before|, [], dstLen, 0) == Fit(name, dstLen)
  {
    assert Encoded(name).Some?;
    var pkt := before + Encoded(name).value + after;
    EncodedHolds(before, name, after);
    LabelsReadBack(pkt, |before|, Labels(name), [], dstLen, 0);
    JoinLabels(name);
    assert [] + name == name;
    hide *;
  }

  lemma EncodedHolds(before: seq<byte>, name: seq<byte>, after: seq<byte>)
    requires Encoded(name).Some?
    ensures Holds(before + Encoded(name).value + after, |before|, Labels(name))
  {
    var w, pkt := Encoded(name).value, before + Encoded(name).value + after;
    assert pkt[|before|..|before| + |w|] == w;
  }

  /**
   * A name comes back exactly if there is room for it and every label has 1 to 63 octets, or if it is
   * empty; the encoder takes up to 127.
   */
  lemma NameRoundTripExactly(before: seq<byte>, name: seq<byte>, after: seq<byte>, dstLen: nat)
    requires Encoded(name).Some?
    ensures var pkt := before + Encoded(name).value + after;
            Uncompressed(pkt, |before|, [], dstLen, 0) == name
            <==> name == [] || (AtMost(Labels(name), 63) && NonEmpty(Labels(name)) && |name| <= dstLen)
  {
    var pkt := before + Encoded(name).value + after;
    EncodedHolds(before, name, after);
    JoinLabels(name);
    assert [] + name == name;
    if name == [] {
      EmptyNameEnds(pkt, |before|, dstLen);
    } else if AtMost(Labels(name), 63) && NonEmpty(Labels(name)) {
      NameReadBack(before, name, after, dstLen);
      FitsExactly(name, dstLen);
    } else if |name| <= dstLen {
      BadLabelShortens(pkt, |before|, Labels(name), [], dstLen, 0);
    }
    hide *;
  }

  lemma EmptyNameEnds(pkt: seq<byte>, data: nat, dstLen: nat)
    requires Holds(pkt, data, Labels([]))
    ensures data < |pkt| && Uncompressed(pkt, data, [], dstLen, 0) == []
  {
    HoldsNext(pkt, data, Labels([]));
  }

  lemma FitsExactly(name: seq<byte>, dstLen: nat)
    ensures Fit(name, dstLen) == name <==> |name| <= dstLen
  {
  }

  /** The name of one label with 64 octets is encoded, and read back as nothing. */
  lemma LongLabelIsLost(name: seq<byte>, dstLen: nat)
    requires |name| == 64 && DOT !in name
    ensures Encoded(name).Some? && Uncompressed(Encoded(name).value, 0, [], dstLen, 0) == []
  {
    SingleLabel(name);
    assert [name][1..] == [];
    assert LabelOctets([name]) == [64] + name + LabelOctets([]);
    assert Encoded(name).value[0] == 64;
  }

  lemma SingleLabel(name: seq<byte>)
    requires DOT !in name
    ensures Labels(name) == [name]
  {
    assert ToDot(name) == |name|;
  }

  /** Two dots in a row end the name: a..b is read back as a. */
  lemma EmptyLabelEndsName()
    ensures Encoded([97, 46, 46, 98]) == Some([1, 97, 0, 1, 98, 0])
    ensures Uncompressed([1, 97, 0, 1, 98, 0], 0, [], 256, 0) == [97]
  {
    DottedLabels();
    LabelOctetsOfThree([97], [], [98]);
    assert LabelOctets([[97], [], [98]]) == [1, 97, 0, 1, 98];
    assert AtMost([[97], [], [98]], 127);
    assert [1, 97, 0, 1, 98] + [0] == [1, 97, 0, 1, 98, 0];
    hide Labels, LabelOctets;
    var pkt: seq<byte> := [1, 97, 0, 1, 98, 0];
    LabelStep(pkt, 0, [], 256, 0);
    EndStep(pkt, 2, [97], 256, 0);
  }

  lemma DottedLabels()
    ensures Labels([97, DOT, DOT, 98]) == [[97], [], [98]]
  {
    var name: seq<byte>, rest: seq<byte>, last: seq<byte> := [97, DOT, DOT, 98], [DOT, 98], [98];
    assert name[1..] == [DOT, DOT, 98] && name[2..] == rest && rest[1..] == last;
    SingleLabel(last);
    assert ToDot(name) == 1 && ToDot(rest) == 0;
    assert name[..1] == [97] && rest[..0] == [];
    assert Labels(rest) == [[]] + [[98]];
  }

  lemma LabelOctetsOfThree(a: seq<byte>, b: seq<byte>, c: seq<byte>)
    requires |a| < 256 && |b| < 256 && |c| < 256
    ensures LabelOctets([a, b, c]) == [|a|] + a + ([|b|] + b + ([|c|] + c + []))
  {
    var ls := [a, b, c];
    assert ls[1..] == [b, c] && [b, c][1..] == [c] && [c][1..] == [];
    assert LabelOctets([c]) == [|c|] + c + [];
    assert LabelOctets([b, c]) == [|b|] + b + LabelOctets([c]);
  }

  // ---------------------------------------------------------------- the functions themselves

  lemma {:induction false} OctetsConcat(a: seq<seq<byte>>, b: seq<seq<byte>>)
    requires AtMost(a, 127) && AtMost(b, 127)
    ensures AtMost(a + b, 127) && LabelOctets(a + b) == LabelOctets(a) + LabelOctets(b)
  {
    assert AtMost(a + b, 127);
    if a == [] {
      assert a + b == b;
    } else {
      OctetsConcat(a[1..], b);
      FirstOctets(a + b);
      FirstOctets(a);
      hide LabelOctets, AtMost;
      assert (a + b)[1..] == a[1..] + b && (a + b)[0] == a[0];
      Assoc([|a[0]|] + a[0], LabelOctets(a[1..]), LabelOctets(b));
    }
  }

  lemma FirstOctets(ls: seq<seq<byte>>)
    requires ls != [] && AtMost(ls, 127)
    ensures AtMost(ls[1..], 127) && |ls[0]| <= 127 && LabelOctets(ls) == ([|ls[0]|] + ls[0]) + LabelOctets(ls[1..])
  {
  }

  /** One more label: the lists that are done and left. */
  lemma LabelTaken(done: seq<seq<byte>>, rest: seq<byte>)
    ensures var n := ToDot(rest);
            done + Labels(rest) == done + [rest[..n]] + (if n < |rest| then Labels(rest[n + 1..]) else [])
  {
    hide Labels, ToDot;
    var n := ToDot(rest);
    var left := if n < |rest| then Labels(rest[n + 1..]) else [];
    LabelsStep(rest);
    RegroupLabels(done, [rest[..n]], left);
  }

  lemma LabelsStep(rest: seq<byte>)
    ensures var n := ToDot(rest);
            Labels(rest) == [rest[..n]] + (if n < |rest| then Labels(rest[n + 1..]) else [])
  {
    var n := ToDot(rest);
    hide ToDot;
    if n == |rest| {
      assert rest[..n] == rest;
    }
  }

  lemma RegroupLabels(a: seq<seq<byte>>, b: seq<seq<byte>>, c: seq<seq<byte>>)
    ensures a + (b + c) == a + b + c
  {
  }

  lemma LabelWritten(done: seq<seq<byte>>, part: seq<byte>)
    requires AtMost(done, 127) && |part| <= 127
    ensures AtMost(done + [part], 127) && LabelOctets(done + [part]) == LabelOctets(done) + [|part|] + part
  {
    var one: seq<seq<byte>> := [part];
    assert one[1..] == [] && LabelOctets(one) == [|part|] + part;
    OctetsConcat(done, one);
  }

  lemma LabelTooLong(done: seq<seq<byte>>, part: seq<byte>, left: seq<seq<byte>>)
    requires |part| > 127
    ensures !AtMost(done + [part] + left, 127)
  {
    assert (done + [part] + left)[|done|] == part;
  }

  /** strchr for a dot in name. */
  method FindDot(name: seq<byte>) returns (n: nat)
    ensures n == ToDot(name)
  {
    n := 0;
    while n < |name| && name[n] != DOT
      invariant n <= |name| && ToDot(name) == n + ToDot(name[n..])
    {
      assert name[n..][1..] == name[n + 1..];
      n := n + 1;
    }
  }

  lemma NothingDone(io: seq<byte>, name: seq<byte>)
    ensures AtMost([], 127) && io + LabelOctets([]) == io && [] + Labels(name) == Labels(name)
  {
    hide Labels;
  }

  /** The loop of mg_dns_encode_name. */
  method EncodeLabels(io: seq<byte>, name: seq<byte>) returns (out: seq<byte>, ok: bool)
    ensures ok == AtMost(Labels(name), 127) && io <= out
    ensures ok ==> out == io + LabelOctets(Labels(name))
  {
    out := io;
    var rest := name;
    ghost var done: seq<seq<byte>> := [];
    NothingDone(io, name);
    hide LabelOctets, Labels, ToDot;
    var more := true;
    while more
      invariant AtMost(done, 127) && out == io + LabelOctets(done)
      invariant Labels(name) == if more then done + Labels(rest) else done
      decreases more, |rest|
    {
      var n := FindDot(rest);
      LabelTaken(done, rest);
      if n > 127 {
        LabelTooLong(done, rest[..n], if n < |rest| then Labels(rest[n + 1..]) else []);
        return out, false;
      }
      LabelWritten(done, rest[..n]);
      out := out + [n];
      out := out + rest[..n];
      done := done + [rest[..n]];
      if n < |rest| {
        rest := rest[n + 1..];
      } else {
        more := false;
      }
    }
    ok := true;
  }

  /** mg_dns_encode_name onto the octets io; r is the answer, -1 after a label that is too long. */
  method EncodeName(io: seq<byte>, name: seq<byte>) returns (out: seq<byte>, r: int)
    ensures match Encoded(name)
            case None => r == -1 && io <= out
            case Some(w) => r == |w| && out == io + w
  {
    var ok;
    out, ok := EncodeLabels(io, name);
    hide AtMost, LabelOctets, Labels;
    if !ok {
      return out, -1;
    }
    out := out + [0];
    r := |out| - |io|;
  }

  lemma PointerStep(pkt: seq<byte>, data: nat, out: seq<byte>, dstLen: nat, hops: nat)
    requires data < |pkt| && |out| <= dstLen && hops <= MAX_HOPS && pkt[data] >= 0xC0
    ensures var next := data + 1;
            var off := if next >= |pkt| then 0 else Offset(pkt[data], pkt[next]);
            Uncompressed(pkt, data, out, dstLen, hops)
            == if next >= |pkt| || off >= |pkt| || hops + 1 > MAX_HOPS then []
               else Uncompressed(pkt, off, out, dstLen, hops + 1)
  {
  }

  /** The copying branch of the loop. */
  lemma CopyStep(pkt: seq<byte>, data: nat, out: seq<byte>, dstLen: nat, hops: nat)
    requires data < |pkt| && |out| <= dstLen && hops <= MAX_HOPS && 1 <= pkt[data] < 0xC0
    ensures var c, next, leeway := pkt[data], data + 1, dstLen - |out|;
            var n := if c > leeway then leeway else c;
            Uncompressed(pkt, data, out, dstLen, hops)
            == if next >= |pkt| || c > 63 || next + n >= |pkt| then []
               else if leeway == n then out + pkt[next..next + n]
               else Uncompressed(pkt, next + n, out + pkt[next..next + n] + [DOT], dstLen, hops)
  {
  }

  lemma StopStep(pkt: seq<byte>, data: nat, out: seq<byte>, dstLen: nat, hops: nat)
    requires data < |pkt| && |out| <= dstLen && hops <= MAX_HOPS && pkt[data] == 0
    ensures Uncompressed(pkt, data, out, dstLen, hops) == if out == [] then [] else out[..|out| - 1]
  {
  }

  /** The octets of a label, and a dot behind it if there is room. */
  method CopyLabel(dst: array<byte>, d: nat, octets: seq<byte>, dstLen: nat) returns (end: nat)
    requires d + |octets| <= dstLen <= dst.Length
    modifies dst
    ensures d <= end <= dstLen
    ensures dst[..end] == old(dst[..d]) + octets + (if d + |octets| == dstLen then [] else [DOT])
    ensures forall k :: dstLen <= k < dst.Length ==> dst[k] == old(dst[k])
  {
    Copy(dst, d, octets);
    end := d + |octets|;
    if end != dstLen {
      dst[end] := DOT;
      end := end + 1;
    }
  }

  /** A pointer: None ends the loop with the answer 0. */
  method FollowPointer(pkt: seq<byte>, data: nat, hops: nat, ghost out: seq<byte>, ghost dstLen: nat)
    returns (off: Option<nat>)
    requires data < |pkt| && |out| <= dstLen && hops <= MAX_HOPS && pkt[data] >= 0xC0
    ensures off.Some? ==> off.value < |pkt| && hops + 1 <= MAX_HOPS
    ensures Uncompressed(pkt, data, out, dstLen, hops)
            == if off.Some? then Uncompressed(pkt, off.value, out, dstLen, hops + 1) else []
  {
    PointerStep(pkt, data, out, dstLen, hops);
    hide Uncompressed;
    var next := data + 1;
    if next >= |pkt| {
      return None;
    }
    var to := Offset(pkt[data], pkt[next]);
    if to >= |pkt| || hops + 1 > MAX_HOPS {
      return None;
    }
    off := Some(to);
  }

  /** A label: the loop goes on from next, or ends with the octets dst[..end]. */
  method TakeLabel(pkt: seq<byte>, data: nat, ghost hops: nat, dst: array<byte>, d: nat, dstLen: nat)
    returns (going: bool, next: nat, end: nat)
    requires data < |pkt| && d <= dstLen <= dst.Length && hops <= MAX_HOPS && 1 <= pkt[data] < 0xC0
    modifies dst
    ensures end <= dstLen && (going ==> data < next < |pkt|)
    ensures Uncompressed(pkt, data, old(dst[..d]), dstLen, hops)
            == if going then Uncompressed(pkt, next, dst[..end], dstLen, hops) else dst[..end]
    ensures forall k :: dstLen <= k < dst.Length ==> dst[k] == old(dst[k])
  {
    CopyStep(pkt, data, dst[..d], dstLen, hops);
    hide Uncompressed;
    var c: nat := pkt[data];
    next := data + 1;
    if next >= |pkt| || c > 63 {
      return false, next, 0;
    }
    var leeway := dstLen - d;
    if c > leeway {
      c := leeway;
    }
    if next + c >= |pkt| {
      return false, next, 0;
    }
    end := CopyLabel(dst, d, pkt[next..next + c], dstLen);
    next := next + c;
    going := leeway != c;
  }

  /** The zero behind the last label: the last dot is taken back. */
  method DropDot(dst: array<byte>, d: nat) returns (len: nat)
    requires d <= dst.Length
    modifies dst
    ensures len <= d && dst[..len] == (if d == 0 then [] else old(dst[..d - 1]))
    ensures forall k :: d <= k < dst.Length ==> dst[k] == old(dst[k])
  {
    len := d;
    if len != 0 {
      len := len - 1;
      dst[len] := 0;
    }
  }

  /**
   * mg_dns_uncompress_name: it reads inside the packet, writes at most dstLen octets, and ends
   * on every packet, since each pointer uses up a hop and each label moves on.
   */
  method UncompressName(pkt: seq<byte>, start: nat, dst: array<byte>, dstLen: nat) returns (len: nat)
    requires dstLen <= dst.Length
    modifies dst
    ensures len <= dstLen
    ensures dst[..len] == if start >= |pkt| then [] else Uncompressed(pkt, start, [], dstLen, 0)
    ensures forall k :: dstLen <= k < dst.Length ==> dst[k] == old(dst[k])
  {
    if start >= |pkt| {
      return 0;
    }
    var data: nat, d: nat, hops: nat := start, 0, 0;
    assert dst[..0] == [];
    hide Uncompressed;
    while pkt[data] != 0
      invariant data < |pkt| && d <= dstLen && hops <= MAX_HOPS
      invariant Uncompressed(pkt, start, [], dstLen, 0) == Uncompressed(pkt, data, dst[..d], dstLen, hops)
      invariant forall k :: dstLen <= k < dst.Length ==> dst[k] == old(dst[k])
      decreases MAX_HOPS - hops, |pkt| - data
    {
      if pkt[data] >= 0xC0 {
        var off := FollowPointer(pkt, data, hops, dst[..d], dstLen);
        if off == None {
          return 0;
        }
        data, hops := off.value, hops + 1;
      } else {
        var going;
        going, data, d := TakeLabel(pkt, data, hops, dst, d, dstLen);
        if !going {
          return d;
        }
      }
    }
    StopStep(pkt, data, dst[..d], dstLen, hops);
    ghost var out := dst[..d];
    len := DropDot(dst, d);
    assert d > 0 ==> dst[..len] == out[..d - 1];
  }
}
