/**
 * Compressed names (section 4.1.4 of RFC 1035): what a packet spells from one of its octets on, said
 * label by label and pointer by pointer, is what mg_dns_uncompress_name in mongoose.c gives.
 */
module DnsPointers {
  import opened Bytes
  import opened DnsName

  /** From octet data on the packet spells the labels ls, with k pointers on the way. */
  ghost predicate Spells(pkt: seq<byte>, data: nat, ls: seq<seq<byte>>, k: nat)
    decreases |ls|, k
  {
    || (data < |pkt| && ls == [] && k == 0 && pkt[data] == 0)
    || (LabelAt(pkt, data, ls) && Spells(pkt, data + 1 + |ls[0]|, ls[1..], k))
    || (k > 0 && PointerAt(pkt, data) && Spells(pkt, Target(pkt, data), ls, k - 1))
  }

  /** Here lies the first of the labels ls, of 1 to 63 octets, and the packet goes on behind it. */
  predicate LabelAt(pkt: seq<byte>, data: nat, ls: seq<seq<byte>>) {
    && ls != [] && 1 <= |ls[0]| <= 63 && data + 1 + |ls[0]| < |pkt|
    && pkt[data..data + 1 + |ls[0]|] == [|ls[0]|] + ls[0]
  }

  /** Here lie two octets whose first two bits are ones. */
  predicate PointerAt(pkt: seq<byte>, data: nat) {
    data + 2 <= |pkt| && FromBigEndian(pkt[data..data + 2]) >= 0xC000
  }

  /** The other fourteen bits. */
  function Target(pkt: seq<byte>, data: nat): nat
    requires PointerAt(pkt, data)
  {
    FromBigEndian(pkt[data..data + 2]) - 0xC000
  }

  /** The last dot is taken back. */
  function Undotted(out: seq<byte>): seq<byte> {
    if out == [] then [] else out[..|out| - 1]
  }

  /** What is there if the labels ls follow the octets out. */
  function Behind(out: seq<byte>, ls: seq<seq<byte>>): seq<byte> {
    if ls == [] then Undotted(out) else out + Join(ls)
  }

  // ---------------------------------------------------------------- one step

  lemma PointerIs(pkt: seq<byte>, data: nat)
    requires data < |pkt|
    ensures PointerAt(pkt, data) <==> data + 1 < |pkt| && pkt[data] >= 0xC0
    ensures PointerAt(pkt, data) ==> Target(pkt, data) == Offset(pkt[data], pkt[data + 1])
  {
    if data + 1 < |pkt| {
      FromTwo(pkt[data..data + 2]);
    }
  }

  lemma LabelIs(pkt: seq<byte>, data: nat, ls: seq<seq<byte>>)
    requires LabelAt(pkt, data, ls)
    ensures pkt[data] == |ls[0]| && pkt[data + 1..data + 1 + |ls[0]|] == ls[0]
  {
    assert pkt[data..data + 1 + |ls[0]|][1..] == ls[0];
    assert pkt[data] == pkt[data..data + 1 + |ls[0]|][0];
  }

  lemma LabelLies(pkt: seq<byte>, data: nat)
    requires data < |pkt| && 1 <= pkt[data] <= 63 && data + 1 + pkt[data] < |pkt|
    ensures LabelAt(pkt, data, [pkt[data + 1..data + 1 + pkt[data]]])
  {
  }

  /** A name goes on inside the packet. */
  lemma SpellsInside(pkt: seq<byte>, data: nat, ls: seq<seq<byte>>, k: nat)
    requires Spells(pkt, data, ls, k)
    ensures data < |pkt|
  {
  }

  lemma Follow(pkt: seq<byte>, data: nat, out: seq<byte>, dstLen: nat, hops: nat)
    requires PointerAt(pkt, data) && |out| <= dstLen && hops <= 15
    ensures Uncompressed(pkt, data, out, dstLen, hops)
            == if hops == 15 || Target(pkt, data) >= |pkt| then []
               else Uncompressed(pkt, Target(pkt, data), out, dstLen, hops + 1)
  {
    PointerIs(pkt, data);
    PointerStep(pkt, data, out, dstLen, hops);
    hide Uncompressed;
  }

  lemma Take(pkt: seq<byte>, data: nat, ls: seq<seq<byte>>, out: seq<byte>, dstLen: nat, hops: nat)
    requires LabelAt(pkt, data, ls) && |out| <= dstLen && hops <= 15
    ensures Uncompressed(pkt, data, out, dstLen, hops)
            == if |out + ls[0]| >= dstLen then (out + ls[0])[..dstLen]
               else Uncompressed(pkt, data + 1 + |ls[0]|, out + ls[0] + [DOT], dstLen, hops)
  {
    LabelIs(pkt, data, ls);
    LabelStep(pkt, data, out, dstLen, hops);
    hide Uncompressed;
    var leeway := dstLen - |out|;
    if |ls[0]| >= leeway {
      SlicePart(pkt, data + 1, ls[0], leeway);
      assert (out + ls[0])[..dstLen] == out + ls[0][..leeway];
    }
  }

  /** Of the labels ls the first does not fit any more. */
  lemma BehindCut(out: seq<byte>, ls: seq<seq<byte>>, dstLen: nat)
    requires ls != [] && |out| <= dstLen <= |out + ls[0]|
    ensures Fit(Behind(out, ls), dstLen) == (out + ls[0])[..dstLen]
  {
    var leeway := dstLen - |out|;
    FitsPart(out, ls, leeway);
    assert (out + ls[0])[..dstLen] == out + ls[0][..leeway];
  }

  lemma BehindNext(out: seq<byte>, ls: seq<seq<byte>>)
    requires ls != []
    ensures Behind(out, ls) == Behind(out + ls[0] + [DOT], ls[1..])
  {
    JoinStep(out, ls);
    if |ls| == 1 {
      assert (out + ls[0] + [DOT])[..|out + ls[0]|] == out + ls[0];
    }
  }

  // ---------------------------------------------------------------- the name

  /** A name with no more than the pointers left is read as far as there is room. */
  lemma {:induction false} SpelledIsRead(pkt: seq<byte>, data: nat, ls: seq<seq<byte>>, k: nat, out: seq<byte>,
                                         dstLen: nat, hops: nat)
    requires Spells(pkt, data, ls, k) && hops + k <= 15 && |out| <= dstLen
    ensures data < |pkt| && Uncompressed(pkt, data, out, dstLen, hops) == Fit(Behind(out, ls), dstLen)
    decreases |ls|, k
  {
    hide Uncompressed, Fit, Behind, PointerAt, Target;
    SpellsInside(pkt, data, ls, k);
    if LabelAt(pkt, data, ls) && Spells(pkt, data + 1 + |ls[0]|, ls[1..], k) {
      Take(pkt, data, ls, out, dstLen, hops);
      if |out + ls[0]| >= dstLen {
        BehindCut(out, ls, dstLen);
      } else {
        BehindNext(out, ls);
        SpelledIsRead(pkt, data + 1 + |ls[0]|, ls[1..], k, out + ls[0] + [DOT], dstLen, hops);
      }
    } else if k > 0 && PointerAt(pkt, data) && Spells(pkt, Target(pkt, data), ls, k - 1) {
      Follow(pkt, data, out, dstLen, hops);
      SpelledIsRead(pkt, Target(pkt, data), ls, k - 1, out, dstLen, hops + 1);
    } else {
      EndIsRead(pkt, data, out, dstLen, hops);
    }
  }

  lemma EndIsRead(pkt: seq<byte>, data: nat, out: seq<byte>, dstLen: nat, hops: nat)
    requires data < |pkt| && pkt[data] == 0 && |out| <= dstLen && hops <= 15
    ensures Uncompressed(pkt, data, out, dstLen, hops) == Undotted(out)
    ensures Undotted(out) == Fit(Behind(out, []), dstLen)
  {
    StopStep(pkt, data, out, dstLen, hops);
  }

  /** The labels of a name come out joined by dots, whatever pointers lead from one to the next. */
  lemma NameIsRead(pkt: seq<byte>, data: nat, ls: seq<seq<byte>>, k: nat, dstLen: nat)
    requires Spells(pkt, data, ls, k) && k <= 15
    ensures data < |pkt| && Uncompressed(pkt, data, [], dstLen, 0) == Fit(Join(ls), dstLen)
  {
    SpelledIsRead(pkt, data, ls, k, [], dstLen, 0);
    assert Behind([], ls) == Join(ls) by { assert [] + Join(ls) == Join(ls); }
    hide *;
  }

  /** Data leads over m pointers on end to some octet of the packet. */
  ghost predicate Leads(pkt: seq<byte>, data: nat, m: nat)
    decreases m
  {
    m == 0 || (PointerAt(pkt, data) && Leads(pkt, Target(pkt, data), m - 1))
  }

  /** More pointers than are left to follow, one behind the other: the answer is the empty name. */
  lemma {:induction false} ChainIsRefused(pkt: seq<byte>, data: nat, m: nat, out: seq<byte>, dstLen: nat, hops: nat)
    requires Leads(pkt, data, m) && hops <= 15 < hops + m && |out| <= dstLen
    ensures data < |pkt| && Uncompressed(pkt, data, out, dstLen, hops) == []
    decreases m
  {
    hide Uncompressed, PointerAt, Target;
    assert data < |pkt| by { PointerInside(pkt, data); }
    Follow(pkt, data, out, dstLen, hops);
    if hops < 15 && Target(pkt, data) < |pkt| {
      ChainIsRefused(pkt, Target(pkt, data), m - 1, out, dstLen, hops + 1);
    }
  }

  lemma PointerInside(pkt: seq<byte>, data: nat)
    requires PointerAt(pkt, data)
    ensures data < |pkt|
  {
  }

  /** The labels that lie ahead of the (k - left)th pointer, where left is less than the number k of all. */
  ghost function Ahead(pkt: seq<byte>, data: nat, ls: seq<seq<byte>>, k: nat, left: nat): (n: nat)
    requires Spells(pkt, data, ls, k) && left < k
    ensures n <= |ls|
    decreases |ls|, k
  {
    if LabelAt(pkt, data, ls) && Spells(pkt, data + 1 + |ls[0]|, ls[1..], k) then
      1 + Ahead(pkt, data + 1 + |ls[0]|, ls[1..], k, left)
    else if left == k - 1 then 0
    else Ahead(pkt, Target(pkt, data), ls, k - 1, left)
  }

  /**
   * With more than the pointers left, the labels ahead of the first one too many are all there is: if
   * they fill the room they are the answer, and otherwise the answer is the empty name.
   */
  lemma {:induction false} PointerTooMany(pkt: seq<byte>, data: nat, ls: seq<seq<byte>>, k: nat, out: seq<byte>,
                                          dstLen: nat, hops: nat)
    requires Spells(pkt, data, ls, k) && hops <= 15 < hops + k && |out| <= dstLen
    ensures var n := Ahead(pkt, data, ls, k, hops + k - 16);
            data < |pkt| && Uncompressed(pkt, data, out, dstLen, hops)
                            == if n > 0 && |out + Join(ls[..n])| >= dstLen then (out + Join(ls[..n]))[..dstLen] else []
    decreases |ls|, k
  {
    hide Uncompressed, PointerAt, Target, Join;
    SpellsInside(pkt, data, ls, k);
    var left := hops + k - 16;
    if LabelAt(pkt, data, ls) && Spells(pkt, data + 1 + |ls[0]|, ls[1..], k) {
      var n := Ahead(pkt, data, ls, k, left);
      Take(pkt, data, ls, out, dstLen, hops);
      JoinFront(out, ls, n);
      if |out + ls[0]| < dstLen {
        PointerTooMany(pkt, data + 1 + |ls[0]|, ls[1..], k, out + ls[0] + [DOT], dstLen, hops);
      }
    } else {
      Follow(pkt, data, out, dstLen, hops);
      if hops < 15 {
        SpellsInside(pkt, Target(pkt, data), ls, k - 1);
        PointerTooMany(pkt, Target(pkt, data), ls, k - 1, out, dstLen, hops + 1);
      }
    }
  }

  lemma JoinFront(out: seq<byte>, ls: seq<seq<byte>>, n: nat)
    requires 0 < n <= |ls|
    ensures |out + Join(ls[..n])| >= |out + ls[0]| && (out + Join(ls[..n]))[..|out + ls[0]|] == out + ls[0]
    ensures n > 1 ==> out + Join(ls[..n]) == out + ls[0] + [DOT] + Join(ls[1..][..n - 1])
    ensures n == 1 ==> Join(ls[..n]) == ls[0]
  {
    assert ls[..n][1..] == ls[1..][..n - 1];
    JoinStep(out, ls[..n]);
  }

  /** An answer that is neither empty nor cut was spelled by the packet, with fifteen pointers at most. */
  lemma {:induction false} ReadIsSpelled(pkt: seq<byte>, data: nat, out: seq<byte>, dstLen: nat, hops: nat)
    returns (ls: seq<seq<byte>>, k: nat)
    requires data < |pkt| && |out| <= dstLen && hops <= 15
    requires 0 < |Uncompressed(pkt, data, out, dstLen, hops)| < dstLen
    ensures Spells(pkt, data, ls, k) && hops + k <= 15
    ensures Uncompressed(pkt, data, out, dstLen, hops) == Behind(out, ls)
    decreases 15 - hops, |pkt| - data
  {
    hide Uncompressed, Behind, LabelAt, PointerAt, Target;
    CopyOrNot(pkt, data, out, dstLen, hops);
    if pkt[data] == 0 {
      EndIsRead(pkt, data, out, dstLen, hops);
      ls, k := [], 0;
      EndBehind(out);
    } else if PointerAt(pkt, data) {
      Follow(pkt, data, out, dstLen, hops);
      ls, k := ReadIsSpelled(pkt, Target(pkt, data), out, dstLen, hops + 1);
      k := k + 1;
    } else {
      var part := pkt[data + 1..data + 1 + pkt[data]];
      LabelLies(pkt, data);
      Take(pkt, data, [part], out, dstLen, hops);
      var rest;
      rest, k := ReadIsSpelled(pkt, data + 1 + |part|, out + part + [DOT], dstLen, hops);
      ls := [part] + rest;
      assert ls[1..] == rest;
      LabelOfMore(pkt, data, part, ls);
      BehindNext(out, ls);
    }
  }

  lemma EndBehind(out: seq<byte>)
    ensures Behind(out, []) == Undotted(out)
  {
  }

  lemma LabelOfMore(pkt: seq<byte>, data: nat, part: seq<byte>, ls: seq<seq<byte>>)
    requires LabelAt(pkt, data, [part]) && ls != [] && ls[0] == part
    ensures LabelAt(pkt, data, ls)
  {
  }

  /** What has to be there for an answer that is neither empty nor cut. */
  lemma CopyOrNot(pkt: seq<byte>, data: nat, out: seq<byte>, dstLen: nat, hops: nat)
    requires data < |pkt| && |out| <= dstLen && hops <= 15
    requires 0 < |Uncompressed(pkt, data, out, dstLen, hops)| < dstLen
    ensures || pkt[data] == 0
            || (PointerAt(pkt, data) && hops < 15 && Target(pkt, data) < |pkt|)
            || (1 <= pkt[data] <= 63 && data + 1 + pkt[data] < |pkt| && |out| + pkt[data] < dstLen
                && !PointerAt(pkt, data))
  {
    PointerIs(pkt, data);
    if PointerAt(pkt, data) {
      Follow(pkt, data, out, dstLen, hops);
    } else if pkt[data] != 0 && pkt[data] < 0xC0 {
      CopyStep(pkt, data, out, dstLen, hops);
    } else if pkt[data] != 0 {
      NoOctetBehind(pkt, data, out, dstLen, hops);
    }
    hide *;
  }

  lemma NoOctetBehind(pkt: seq<byte>, data: nat, out: seq<byte>, dstLen: nat, hops: nat)
    requires data < |pkt| && |out| <= dstLen && hops <= 15
    requires pkt[data] >= 0xC0 && data + 1 == |pkt|
    ensures Uncompressed(pkt, data, out, dstLen, hops) == []
  {
  }

  /** Twelve octets of header, the name a, and a pointer to it: both are read as a. */
  lemma PointerExample()
    ensures var pkt: seq<byte> := [0, 0, 0, 0, 0, 0, 0, 0, 0, 0, 0, 0, 1, 97, 0, 0xC0, 0x0C, 0];
            Uncompressed(pkt, 12, [], 256, 0) == [97] && Uncompressed(pkt, 15, [], 256, 0) == [97]
  {
    var pkt: seq<byte> := [0, 0, 0, 0, 0, 0, 0, 0, 0, 0, 0, 0, 1, 97, 0, 0xC0, 0x0C, 0];
    FromTwo(pkt[15..17]);
    var ls: seq<seq<byte>> := [[97]];
    assert LabelAt(pkt, 12, ls) by { assert pkt[12..14] == [1, 97] == [1] + ls[0]; }
    assert ls[1..] == [] && Spells(pkt, 14, [], 0);
    assert Spells(pkt, 12, ls, 0) && Target(pkt, 15) == 12 && Spells(pkt, 15, ls, 1);
    NameIsRead(pkt, 12, ls, 0, 256);
    NameIsRead(pkt, 15, ls, 1, 256);
    assert Join(ls) == [97];
    hide *;
  }
}
