/**
 * Base64 in mongoose.c (section 4 of RFC 4648): the streaming encoder, the one-shot encoder and
 * the decoder.
 */
module Base64 {
  import opened Bytes

  const PAD: byte := 61

  // ---------------------------------------------------------------- the alphabet

  /** cs_base64_emit_code. */
  function Code(v: nat): byte
    requires v < 64
  {
    if v < 26 then v + 65
    else if v < 52 then v - 26 + 97
    else if v < 62 then v - 52 + 48
    else if v == 62 then 43 else 47
  }

  /** from_b64: 255 for other characters, 200 for '='; the top bit is ignored. */
  function FromCode(ch: byte): byte {
    var c := ch % 128;
    if 65 <= c <= 90 then c - 65
    else if 97 <= c <= 122 then c - 97 + 26
    else if 48 <= c <= 57 then c - 48 + 52
    else if c == 43 then 62
    else if c == 47 then 63
    else if c == PAD then 200
    else 255
  }

  lemma CodeReadsBack(v: nat)
    requires v < 64
    ensures FromCode(Code(v)) == v
  {
  }

  // ---------------------------------------------------------------- the standard

  function First(a: byte): (v: nat)
    ensures v < 64
  {
    a / 4
  }

  function Second(a: byte, b: byte): (v: nat)
    ensures v < 64
  {
    a % 4 * 16 + b / 16
  }

  function Third(b: byte, c: byte): (v: nat)
    ensures v < 64
  {
    b % 16 * 4 + c / 64
  }

  function Fourth(c: byte): (v: nat)
    ensures v < 64
  {
    c % 64
  }

  /** The four characters of three octets. */
  function Quad(a: byte, b: byte, c: byte): (q: seq<byte>)
    ensures |q| == 4
  {
    [Code(First(a)), Code(Second(a, b)), Code(Third(b, c)), Code(Fourth(c))]
  }

  /** Section 4 of RFC 4648: three octets make four characters; the end is padded. */
  function Encode(s: seq<byte>): seq<byte> {
    if |s| >= 3 then Quad(s[0], s[1], s[2]) + Encode(s[3..])
    else if |s| == 2 then Quad(s[0], s[1], 0)[..3] + [PAD]
    else if |s| == 1 then Quad(s[0], 0, 0)[..2] + [PAD, PAD]
    else []
  }

  lemma {:induction false} EncodeConcat(a: seq<byte>, b: seq<byte>)
    requires |a| % 3 == 0
    ensures Encode(a + b) == Encode(a) + Encode(b)
  {
    if a == [] {
      assert a + b == b;
    } else {
      assert (a + b)[3..] == a[3..] + b;
      EncodeConcat(a[3..], b);
    }
  }

  lemma {:induction false} EncodeLength(s: seq<byte>)
    ensures |Encode(s)| == (|s| + 2) / 3 * 4
  {
    hide Encode;
    if |s| >= 3 {
      GroupLength(s);
      EncodeLength(s[3..]);
    } else {
      EndLength(s);
    }
  }

  lemma GroupLength(s: seq<byte>)
    requires |s| >= 3
    ensures |Encode(s)| == 4 + |Encode(s[3..])|
  {
    hide Quad;
  }

  lemma EndLength(s: seq<byte>)
    requires |s| < 3
    ensures |Encode(s)| == if s == [] then 0 else 4
  {
    hide Quad;
  }

  // ---------------------------------------------------------------- decoding

  /** The octets that four characters stand for, without the padding. */
  function Octets(a: byte, b: byte, c: byte, d: byte): (o: seq<byte>)
    ensures 1 <= |o| <= 3
  {
    [(a * 4 % 256 + b / 16) % 256]
      + (if c == 200 then []
         else [(b * 16 % 256 + c / 4) % 256] + (if d == 200 then [] else [(c * 64 % 256 + d) % 256]))
  }

  /** The octets cs_base64_decode writes, and how many characters it has taken. */
  function Decode(s: seq<byte>): (r: (seq<byte>, nat))
    ensures r.1 <= |s|
  {
    if |s| < 4 then ([], 0)
    else
      var a, b, c, d := FromCode(s[0]), FromCode(s[1]), FromCode(s[2]), FromCode(s[3]);
      if a == 255 || b == 255 || c == 255 || d == 255 then ([], 0)
      else if a == 200 || b == 200 then ([], 4)
      else if c == 200 || d == 200 then (Octets(a, b, c, d), 4)
      else
        var r := Decode(s[4..]);
        (Octets(a, b, c, d) + r.0, 4 + r.1)
  }

  lemma LowByte(k: nat, r: nat)
    requires r < 256
    ensures (256 * k + r) % 256 == r
  {
  }

  lemma FirstOctet(a: byte, b: byte)
    ensures (First(a) * 4 % 256 + Second(a, b) / 16) % 256 == a
  {
    assert Second(a, b) / 16 == a % 4;
    assert First(a) * 4 + a % 4 == a;
  }

  lemma SecondOctet(a: byte, b: byte, c: byte)
    ensures (Second(a, b) * 16 % 256 + Third(b, c) / 4) % 256 == b
  {
    var h, l := b / 16, b % 16;
    assert Second(a, b) * 16 == 256 * (a % 4) + 16 * h;
    LowByte(a % 4, 16 * h);
    assert Third(b, c) / 4 == l;
    assert 16 * h + l == b;
  }

  lemma ThirdOctet(b: byte, c: byte)
    ensures (Third(b, c) * 64 % 256 + Fourth(c)) % 256 == c
  {
    var h, l := c / 64, c % 64;
    assert Third(b, c) * 64 == 256 * (b % 16) + 64 * h;
    LowByte(b % 16, 64 * h);
    assert 64 * h + l == c;
  }

  lemma QuadReadsBack(a: byte, b: byte, c: byte)
    ensures var q := Quad(a, b, c);
            && FromCode(q[0]) < 64 && FromCode(q[1]) < 64 && FromCode(q[2]) < 64 && FromCode(q[3]) < 64
            && Octets(FromCode(q[0]), FromCode(q[1]), FromCode(q[2]), FromCode(q[3])) == [a, b, c]
            && Octets(FromCode(q[0]), FromCode(q[1]), FromCode(q[2]), 200) == [a, b]
            && Octets(FromCode(q[0]), FromCode(q[1]), 200, 200) == [a]
  {
    hide Code, FromCode, First, Second, Third, Fourth;
    CodeReadsBack(First(a));
    CodeReadsBack(Second(a, b));
    CodeReadsBack(Third(b, c));
    CodeReadsBack(Fourth(c));
    FirstOctet(a, b);
    SecondOctet(a, b, c);
    ThirdOctet(b, c);
  }

  lemma DecodeQuad(q: seq<byte>, more: seq<byte>)
    requires |q| == 4 && FromCode(q[0]) < 64 && FromCode(q[1]) < 64 && FromCode(q[2]) < 64 && FromCode(q[3]) < 64
    ensures var r := Decode(more);
            Decode(q + more) == (Octets(FromCode(q[0]), FromCode(q[1]), FromCode(q[2]), FromCode(q[3])) + r.0, 4 + r.1)
  {
    hide FromCode, Octets;
    var s := q + more;
    assert s[0] == q[0] && s[1] == q[1] && s[2] == q[2] && s[3] == q[3];
    assert s[4..] == more;
  }

  lemma DecodeLast(q: seq<byte>)
    requires |q| == 4 && FromCode(q[0]) < 64 && FromCode(q[1]) < 64 && (FromCode(q[2]) < 64 || FromCode(q[2]) == 200)
    requires FromCode(q[3]) == 200
    ensures Decode(q) == (Octets(FromCode(q[0]), FromCode(q[1]), FromCode(q[2]), 200), 4)
  {
    hide FromCode, Octets;
  }

  lemma LastGroup(s: seq<byte>)
    requires |s| == 1 || |s| == 2
    ensures Decode(Encode(s)) == (s, 4) && |Encode(s)| == 4
  {
    var b: byte := if |s| == 2 then s[1] else 0;
    var q := Quad(s[0], b, 0);
    QuadReadsBack(s[0], b, 0);
    assert FromCode(PAD) == 200;
    hide FromCode, Quad;
    if |s| == 2 {
      var e := q[..3] + [PAD];
      assert Encode(s) == e && s == [s[0], b];
      DecodeLast(e);
    } else {
      var e := q[..2] + [PAD, PAD];
      assert Encode(s) == e && s == [s[0]];
      DecodeLast(e);
    }
  }

  /** Decoding gives the octets back and takes every character. */
  lemma {:induction false} DecodeOfEncode(s: seq<byte>)
    ensures Decode(Encode(s)) == (s, |Encode(s)|)
  {
    if |s| >= 3 {
      var q := Quad(s[0], s[1], s[2]);
      assert Encode(s) == q + Encode(s[3..]);
      hide Decode, Encode, Quad, FromCode, Octets;
      QuadReadsBack(s[0], s[1], s[2]);
      DecodeQuad(q, Encode(s[3..]));
      DecodeOfEncode(s[3..]);
      assert s == [s[0], s[1], s[2]] + s[3..];
    } else if s != [] {
      LastGroup(s);
    }
  }

  // ---------------------------------------------------------------- streaming

  /** struct cs_base64_ctx; out is what b64_putc was given. */
  class Encoder {
    const chunk: array<byte>
    var chunkSize: nat
    var out: seq<byte>
    ghost var input: seq<byte>

    /** cs_base64_init. */
    constructor ()
      ensures Valid() && input == [] && fresh(chunk)
    {
      chunk := new byte[3];
      chunkSize, out, input := 0, [], [];
      new;
      assert input[..0] == [] && chunk[..0] == [];
    }

    /** Whole groups are out, the rest is in the chunk, however the input was cut. */
    ghost predicate Valid()
      reads this, chunk
    {
      Held(input, chunk[..], chunkSize, out)
    }

    /** cs_base64_emit_chunk. */
    method EmitChunk()
      requires chunk.Length == 3 && 1 <= chunkSize <= 3
      modifies this`out
      ensures out == old(out) + Quad(chunk[0], chunk[1], chunk[2])[..chunkSize + 1]
    {
      var a, b, c := chunk[0], chunk[1], chunk[2];
      out := out + [Code(First(a))];
      out := out + [Code(Second(a, b))];
      if chunkSize > 1 {
        out := out + [Code(Third(b, c))];
      }
      if chunkSize > 2 {
        out := out + [Code(Fourth(c))];
      }
    }

    /** One octet of cs_base64_update. */
    method Put(x: byte)
      requires Valid()
      modifies this`chunkSize, this`out, this`input, chunk
      ensures Valid() && input == old(input) + [x]
    {
      hide Held;
      HeldNext(input, chunk[..], chunkSize, out, x);
      ghost var before := input[..|input| - chunkSize];
      chunk[chunkSize] := x;
      chunkSize := chunkSize + 1;
      input := input + [x];
      if chunkSize == 3 {
        EmitGroup(before);
      }
    }

    /** A full chunk goes out. */
    method EmitGroup(ghost before: seq<byte>)
      requires chunk.Length == 3 && chunkSize == 3 && |before| % 3 == 0
      requires input == before + chunk[..3] && out == Encode(before)
      modifies this`chunkSize, this`out
      ensures Valid()
    {
      hide Encode, Quad;
      EmitChunk();
      GroupIs(before, chunk[0], chunk[1], chunk[2]);
      assert chunk[..] == chunk[..3] == [chunk[0], chunk[1], chunk[2]];
      chunkSize := 0;
      assert input[|input|..] == [] && input[..|input|] == input;
    }

    /** cs_base64_update. */
    method Update(str: seq<byte>)
      requires Valid()
      modifies this`chunkSize, this`out, this`input, chunk
      ensures Valid() && input == old(input) + str
    {
      for i := 0 to |str|
        invariant Valid() && input == old(input) + str[..i]
      {
        Put(str[i]);
        assert str[..i + 1] == str[..i] + [str[i]];
      }
    }

    /** cs_base64_finish. */
    method Finish()
      requires Valid()
      modifies this`out, chunk
      ensures out == Encode(input)
    {
      ghost var before, rest := input[..|input| - chunkSize], chunk[..chunkSize];
      assert input == before + rest;
      EncodeConcat(before, rest);
      if chunkSize > 0 {
        EncodeShort(rest);
        hide Encode, Quad;
        Clear(chunk, chunkSize, 3 - chunkSize);
        assert rest == chunk[..chunkSize];
        EmitChunk();
        ghost var group := Quad(chunk[0], chunk[1], chunk[2])[..chunkSize + 1];
        FinishShape(Encode(before), group, 3 - chunkSize);
        PutPads(3 - chunkSize);
      }
    }

    method PutPads(n: nat)
      modifies this`out
      ensures out == old(out) + Pads(n)
    {
      for i := 0 to n
        invariant out + Pads(n - i) == old(out) + Pads(n)
      {
        out := out + [PAD];
      }
    }
  }

  /** The first n octets of the chunk are the end of the input, behind whole groups that are out. */
  ghost predicate Held(input: seq<byte>, chunk: seq<byte>, n: nat, out: seq<byte>) {
    && |chunk| == 3 && n == |input| % 3
    && out == Encode(input[..|input| - n]) && chunk[..n] == input[|input| - n..]
  }

  lemma HeldNext(input: seq<byte>, chunk: seq<byte>, n: nat, out: seq<byte>, x: byte)
    requires Held(input, chunk, n, out)
    ensures |chunk| == 3 && n < 3 && n <= |input| && (|input| - n) % 3 == 0
    ensures n < 2 ==> Held(input + [x], chunk[n := x], n + 1, out)
    ensures n == 2 ==> input + [x] == input[..|input| - n] + chunk[n := x] && out == Encode(input[..|input| - n])
  {
    hide Encode;
    var before, kept := input[..|input| - n], chunk[..n];
    assert input == before + kept;
    assert chunk[n := x][..n + 1] == kept + [x];
    Regrouped(before, kept, x);
    assert n == 2 ==> chunk[n := x] == chunk[n := x][..3];
  }

  lemma FinishShape(a: seq<byte>, group: seq<byte>, n: nat)
    ensures a + (group + Pads(n) + Encode([])) == a + group + Pads(n)
  {
    EncodeEmpty();
  }

  lemma EncodeEmpty()
    ensures Encode([]) == []
  {
  }

  // ---------------------------------------------------------------- one-shot

  lemma EncodeLong(s: seq<byte>)
    requires |s| >= 3
    ensures Encode(s) == Quad(s[0], s[1], s[2])[..4] + Pads(0) + Encode(s[3..])
  {
    var q := Quad(s[0], s[1], s[2]);
    hide Quad;
    assert q[..4] == q && q + Pads(0) == q;
  }

  lemma EncodeShort(s: seq<byte>)
    requires |s| == 1 || |s| == 2
    ensures var b: byte := if |s| > 1 then s[1] else 0;
            Encode(s) == Quad(s[0], b, 0)[..|s| + 1] + Pads(3 - |s|) + Encode([])
  {
    hide Quad;
    assert Pads(2) == [PAD, PAD] && Pads(1) == [PAD] && Encode([]) == [];
  }

  lemma EncodeEnd(s: seq<byte>)
    requires 0 < |s|
    ensures var k := if |s| > 3 then 3 else |s|;
            var b: byte, c: byte := if |s| > 1 then s[1] else 0, if |s| > 2 then s[2] else 0;
            Encode(s) == Quad(s[0], b, c)[..k + 1] + Pads(3 - k) + Encode(s[k..])
  {
    if |s| >= 3 {
      EncodeLong(s);
    } else {
      EncodeShort(s);
      assert s[|s|..] == [];
    }
    hide Quad, Encode, Pads;
  }

  /** The octets from i on, or none. */
  function From(src: seq<byte>, i: nat): seq<byte> {
    if i < |src| then src[i..] else []
  }

  /** One round of the loop of cs_base64_encode. */
  method EncodeGroup(src: seq<byte>, i: nat) returns (group: seq<byte>)
    requires i < |src|
    ensures 2 <= |group| <= 4 && (i + 3 < |src| ==> |group| == 4)
    ensures Encode(From(src, i)) == group + Pads(4 - |group|) + Encode(From(src, i + 3))
  {
    EncodeEnd(src[i..]);
    assert |src| - i > 3 ==> src[i..][3..] == src[i + 3..];
    assert |src| - i <= 3 ==> src[i..][|src| - i..] == [];
    hide Encode, Pads, Code, First, Second, Third, Fourth;
    var a: byte := src[i];
    var b: byte := if i + 1 >= |src| then 0 else src[i + 1];
    var c: byte := if i + 2 >= |src| then 0 else src[i + 2];
    group := [Code(First(a))];
    group := group + [Code(Second(a, b))];
    if i + 1 < |src| {
      group := group + [Code(Third(b, c))];
    }
    if i + 2 < |src| {
      group := group + [Code(Fourth(c))];
    }
    assert group == Quad(a, b, c)[..|group|];
  }

  lemma EncodeNone(src: seq<byte>, i: nat, a: seq<byte>)
    requires i >= |src|
    ensures a + Encode(From(src, i)) == a
  {
  }

  lemma Regroup(whole: seq<byte>, dst: seq<byte>, left: seq<byte>, group: seq<byte>, pads: nat, rest: seq<byte>)
    requires whole == dst + Pads(0) + left && left == group + Pads(pads) + rest
    ensures whole == (dst + group) + Pads(pads) + rest
  {
  }

  /** The padding loop of cs_base64_encode. */
  method PadOut(s: seq<byte>, ghost n: nat) returns (dst: seq<byte>)
    requires n <= 2 && (|s| + n) % 4 == 0
    ensures dst == s + Pads(n)
  {
    dst := s;
    ghost var pads := n;
    while |dst| % 4 != 0
      invariant 0 <= pads <= n && (|dst| + pads) % 4 == 0 && dst + Pads(pads) == s + Pads(n)
      decreases pads
    {
      dst := dst + [PAD];
      pads := pads - 1;
    }
  }

  /** One round and what it means for the whole. */
  method EncodeRound(src: seq<byte>, i: nat, dst: seq<byte>) returns (next: seq<byte>, ghost pads: nat)
    requires i < |src| && |dst| % 4 == 0 && Encode(src) == dst + Pads(0) + Encode(From(src, i))
    ensures pads <= 2 && (|next| + pads) % 4 == 0 && (i + 3 < |src| ==> pads == 0)
    ensures Encode(src) == next + Pads(pads) + Encode(From(src, i + 3))
  {
    hide Encode, Pads, From;
    var group := EncodeGroup(src, i);
    Regroup(Encode(src), dst, Encode(From(src, i)), group, 4 - |group|, Encode(From(src, i + 3)));
    next, pads := dst + group, 4 - |group|;
  }

  /** cs_base64_encode; the result ends with a zero octet. */
  method EncodeAll(src: seq<byte>) returns (dst: seq<byte>)
    ensures dst == Encode(src) + [0]
  {
    dst := [];
    var i: nat := 0;
    ghost var pads: nat := 0;
    EncodeStart(src);
    hide Encode, Pads, From;
    while i < |src|
      invariant pads <= 2 && (|dst| + pads) % 4 == 0 && (i < |src| ==> pads == 0)
      invariant Encode(src) == dst + Pads(pads) + Encode(From(src, i))
    {
      dst, pads := EncodeRound(src, i, dst);
      i := i + 3;
    }
    EncodeNone(src, i, dst + Pads(pads));
    dst := PadOut(dst, pads);
    dst := dst + [0];
  }

  lemma EncodeStart(src: seq<byte>)
    ensures Encode(src) == [] + Pads(0) + Encode(From(src, 0))
  {
    assert From(src, 0) == src && [] + Pads(0) + Encode(src) == Encode(src);
  }

  /** One round of the loop of cs_base64_decode. */
  method DecodeGroup(s: seq<byte>) returns (octets: seq<byte>, taken: nat, more: bool)
    requires |s| >= 4
    ensures taken == 4 || (taken == 0 && octets == [] && !more)
    ensures Decode(s) == if more then (octets + Decode(s[4..]).0, 4 + Decode(s[4..]).1) else (octets, taken)
  {
    hide FromCode;
    octets, taken, more := [], 0, false;
    var a: nat, b: nat, c: nat, d: nat := FromCode(s[0]), FromCode(s[1]), FromCode(s[2]), FromCode(s[3]);
    if a == 255 || b == 255 || c == 255 || d == 255 {
      return;
    }
    taken := 4;
    if a == 200 || b == 200 {
      return;
    }
    octets := octets + [(a * 4 % 256 + b / 16) % 256];
    if c == 200 {
      assert octets == Octets(a, b, c, d);
      return;
    }
    octets := octets + [(b * 16 % 256 + c / 4) % 256];
    if d == 200 {
      assert octets == Octets(a, b, c, d);
      return;
    }
    octets := octets + [(c * 64 % 256 + d) % 256];
    assert octets == Octets(a, b, c, d);
    more := true;
  }

  /** What has been decoded and what the rest decodes to, together. */
  function Onward(dst: seq<byte>, taken: nat, rest: (seq<byte>, nat)): (seq<byte>, nat) {
    (dst + rest.0, taken + rest.1)
  }

  lemma OnwardTwice(dst: seq<byte>, taken: nat, octets: seq<byte>, rest: (seq<byte>, nat))
    ensures Onward(dst, taken, (octets + rest.0, 4 + rest.1)) == Onward(dst + octets, taken + 4, rest)
    ensures Onward(dst, taken, (octets, 4)) == (dst + octets, taken + 4)
    ensures Onward([], 0, rest) == rest && Onward(dst, taken, ([], 0)) == (dst, taken)
  {
    assert dst + (octets + rest.0) == (dst + octets) + rest.0;
    assert [] + rest.0 == rest.0 && dst + [] == dst;
  }

  lemma DecodeShort(s: seq<byte>)
    requires |s| < 4
    ensures Decode(s) == ([], 0)
  {
  }

  /** cs_base64_decode: the octets, and how many characters were taken. */
  method DecodeAll(s: seq<byte>) returns (dst: seq<byte>, taken: nat)
    ensures (dst, taken) == Decode(s)
  {
    hide Decode, Onward;
    dst, taken := [], 0;
    assert s[0..] == s;
    OnwardTwice([], 0, [], Decode(s));
    while |s| - taken >= 4
      invariant taken <= |s| && Decode(s) == Onward(dst, taken, Decode(s[taken..]))
    {
      var octets, n, more := DecodeGroup(s[taken..]);
      assert s[taken..][4..] == s[taken + 4..];
      OnwardTwice(dst, taken, octets, Decode(s[taken + 4..]));
      assert octets == [] ==> dst + octets == dst;
      dst := dst + octets;
      taken := taken + n;
      if !more {
        return;
      }
    }
    DecodeShort(s[taken..]);
    OnwardTwice(dst, taken, [], ([], 0));
  }

  function Pads(n: nat): seq<byte> {
    if n == 0 then [] else [PAD] + Pads(n - 1)
  }

  lemma Regrouped(before: seq<byte>, kept: seq<byte>, x: byte)
    ensures var whole := before + kept + [x];
            && whole == before + (kept + [x])
            && whole[..|before|] == before && whole[|before|..] == kept + [x]
  {
  }

  lemma GroupIs(before: seq<byte>, a: byte, b: byte, c: byte)
    requires |before| % 3 == 0
    ensures Encode(before + [a, b, c]) == Encode(before) + Quad(a, b, c)
  {
    hide Quad, Encode;
    var three := [a, b, c];
    EncodeConcat(before, three);
    EncodeLong(three);
    EncodeEmpty();
    assert three[3..] == [] && Pads(0) == [];
    var q := Quad(a, b, c);
    assert q[..4] + [] + [] == q;
  }

  // ---------------------------------------------------------------- by the table of the standard

  /** Table 1 of RFC 4648. */
  function Alphabet(v: nat): char
    requires v < 64
  {
    if v < 26 then "ABCDEFGHIJKLMNOPQRSTUVWXYZ"[v]
    else if v < 52 then "abcdefghijklmnopqrstuvwxyz"[v - 26]
    else "0123456789+/"[v - 52]
  }

  /** The decoder looks at seven bits of a character, and marks the padding and all that are not in the table. */
  lemma TableIs(v: nat, c: byte)
    requires v < 64
    ensures Code(v) == Alphabet(v) as int
    ensures FromCode(c) == v <==> c % 128 == Alphabet(v) as int
    ensures FromCode(c) == 200 <==> c % 128 == '=' as int
    ensures FromCode(c) < 64 || FromCode(c) == 200 || FromCode(c) == 255
  {
    CodeIsTable(v);
    hide Alphabet;
  }

  lemma CodeIsTable(v: nat)
    requires v < 64
    ensures Code(v) == Alphabet(v) as int
  {
    if v < 26 {
      UpperCase(v);
    } else if v < 52 {
      LowerCase(v - 26);
    }
  }

  lemma UpperCase(i: nat)
    requires i < 26
    ensures "ABCDEFGHIJKLMNOPQRSTUVWXYZ"[i] as int == 65 + i
  {
  }

  lemma LowerCase(i: nat)
    requires i < 26
    ensures "abcdefghijklmnopqrstuvwxyz"[i] as int == 97 + i
  {
  }

  /** The four values are the digits to base 64 of the number that the three octets write. */
  lemma QuadIsNumber(a: byte, b: byte, c: byte)
    ensures a as nat * 65536 + b as nat * 256 + c
         == First(a) * 262144 + Second(a, b) * 4096 + Third(b, c) * 64 + Fourth(c)
    ensures Quad(a, b, c) == [Code(First(a)), Code(Second(a, b)), Code(Third(b, c)), Code(Fourth(c))]
  {
  }

  predicate InTable(c: byte) { FromCode(c) < 64 }

  predicate IsPadding(c: byte) { c % 128 == '=' as int }

  /** A character is the v-th of the table, a padding character, or none of the alphabet. */
  lemma CharacterIs(c: byte)
    ensures InTable(c) <==> FromCode(c) < 64 && c % 128 == Alphabet(FromCode(c)) as int
    ensures IsPadding(c) <==> FromCode(c) == 200
    ensures !InTable(c) && !IsPadding(c) <==> FromCode(c) == 255
  {
    if FromCode(c) < 64 {
      TableIs(FromCode(c), c);
    } else {
      TableIs(0, c);
    }
    hide FromCode, Alphabet;
  }

  /**
   * How decoding goes on at any four characters: it ends in front of one that is not in the alphabet, behind
   * four with padding in the first or second place without an octet of them, behind four with padding in the
   * third or fourth place with one or two octets, and else takes three octets.
   */
  lemma FourCharacters(s: seq<byte>)
    ensures |s| < 4 ==> Decode(s) == ([], 0)
    ensures |s| >= 4 && (exists i :: 0 <= i < 4 && !InTable(s[i]) && !IsPadding(s[i])) ==> Decode(s) == ([], 0)
    ensures |s| >= 4 && (forall i :: 0 <= i < 4 ==> InTable(s[i]) || IsPadding(s[i])) ==>
              if IsPadding(s[0]) || IsPadding(s[1]) then Decode(s) == ([], 4)
              else if IsPadding(s[2]) then |Decode(s).0| == 1 && Decode(s).1 == 4
              else if IsPadding(s[3]) then |Decode(s).0| == 2 && Decode(s).1 == 4
              else |Decode(s).0| == 3 + |Decode(s[4..]).0| && Decode(s).0[3..] == Decode(s[4..]).0
                   && Decode(s).1 == 4 + Decode(s[4..]).1
  {
    if |s| >= 4 {
      CharacterIs(s[0]);
      CharacterIs(s[1]);
      CharacterIs(s[2]);
      CharacterIs(s[3]);
      hide FromCode, InTable, IsPadding;
    }
  }

  /** The octets of four characters, and of two or three with padding behind them, by their values. */
  lemma OctetsAreNumber(s: seq<byte>)
    requires |s| >= 4 && InTable(s[0]) && InTable(s[1])
    ensures IsPadding(s[2]) && (InTable(s[3]) || IsPadding(s[3]))
            ==> Decode(s).0 == [FromCode(s[0]) * 4 + FromCode(s[1]) / 16]
    ensures InTable(s[2]) && IsPadding(s[3])
            ==> |Decode(s).0| == 2
                && Decode(s).0[0] as nat * 256 + Decode(s).0[1]
                   == (FromCode(s[0]) as nat * 4096 + FromCode(s[1]) as nat * 64 + FromCode(s[2])) / 4
    ensures InTable(s[2]) && InTable(s[3])
            ==> |Decode(s).0| >= 3
                && Decode(s).0[0] as nat * 65536 + Decode(s).0[1] as nat * 256 + Decode(s).0[2]
                   == FromCode(s[0]) as nat * 262144 + FromCode(s[1]) as nat * 4096
                      + FromCode(s[2]) as nat * 64 + FromCode(s[3])
  {
    CharacterIs(s[2]);
    CharacterIs(s[3]);
    var a, b, c, d := FromCode(s[0]), FromCode(s[1]), FromCode(s[2]), FromCode(s[3]);
    hide FromCode, IsPadding, Octets;
    if c < 64 {
      SixBits(a, b, c, if d < 64 then d else 0);
    } else {
      SixBits(a, b, 0, 0);
    }
    OctetsOf(a, b, c, d);
  }

  lemma OctetsOf(a: byte, b: byte, c: byte, d: byte)
    requires a < 64 && b < 64
    ensures c == 200 ==> Octets(a, b, c, d) == [a * 4 + b / 16]
    ensures c < 64 && d == 200 ==> Octets(a, b, c, d) == [a * 4 + b / 16, b % 16 * 16 + c / 4]
    ensures c < 64 && d < 64 ==> Octets(a, b, c, d) == [a * 4 + b / 16, b % 16 * 16 + c / 4, c % 4 * 64 + d]
  {
    FirstSum(a, b);
    if c < 64 {
      SecondSum(b, c);
      if d < 64 {
        ThirdSum(c, d);
      }
    }
  }

  lemma FirstSum(a: byte, b: byte)
    requires a < 64 && b < 64
    ensures (a * 4 % 256 + b / 16) % 256 == a * 4 + b / 16
  {
  }

  lemma SecondSum(b: byte, c: byte)
    requires c < 64
    ensures (b * 16 % 256 + c / 4) % 256 == b % 16 * 16 + c / 4
  {
  }

  lemma ThirdSum(c: byte, d: byte)
    requires d < 64
    ensures (c * 64 % 256 + d) % 256 == c % 4 * 64 + d
  {
  }

  lemma SixBits(a: nat, b: nat, c: nat, d: nat)
    ensures (a * 4 + b / 16) * 65536 + (b % 16 * 16 + c / 4) * 256 + (c % 4 * 64 + d)
         == a * 262144 + b * 4096 + c * 64 + d
    ensures (a * 4 + b / 16) * 256 + (b % 16 * 16 + c / 4) == (a * 4096 + b * 64 + c) / 4
  {
  }

  /** Section 10: f, fo and foo. */
  lemma Examples()
    ensures Encode([102]) == [90, 103, 61, 61] && Encode([102, 111]) == [90, 109, 56, 61]
    ensures Encode([102, 111, 111]) == [90, 109, 57, 118]
    ensures Decode([90, 103, 61, 61]) == ([102], 4) && Decode([90, 109, 56, 61]) == ([102, 111], 4)
    ensures Decode([90, 109, 57, 118]) == ([102, 111, 111], 4)
  {
    var whole: seq<byte> := [102, 111, 111];
    assert whole[3..] == [] && Encode(whole) == Quad(102, 111, 111) + [];
    hide Encode, Decode;
    DecodeOfEncode([102]);
    DecodeOfEncode([102, 111]);
    DecodeOfEncode(whole);
    ShortExamples();
  }

  lemma ShortExamples()
    ensures Encode([102]) == [90, 103, 61, 61] && Encode([102, 111]) == [90, 109, 56, 61]
  {
  }
}
