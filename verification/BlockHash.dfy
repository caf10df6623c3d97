/**
 * The streaming part of SHA-1 and MD5 in mongoose.c: messages arrive in pieces of any size and
 * are folded block by block. The function that mixes one block into the state is a parameter.
 */
module BlockHash {
  import opened Bytes

  const WORD := 0x1_0000_0000

  type Word = w: int | 0 <= w < WORD

  /** The chaining variables: five words for SHA-1, four for MD5. */
  type Words = seq<Word>
  type Transform = (Words, seq<byte>) -> Words

  // ---------------------------------------------------------------- the standards

  /** The blocks of m, in order, mixed into s. */
  function Fold(t: Transform, s: Words, m: seq<byte>): Words
    requires |m| % 64 == 0
    decreases |m|
  {
    if m == [] then s else Fold(t, t(s, m[..64]), m[64..])
  }

  function Zeros(n: nat): (z: seq<byte>)
    ensures |z| == n
  {
    seq(n, _ => 0)
  }

  /** How many zeros come between the octet 0x80 and the eight octets of the length. */
  function ZerosFor(len: nat): (k: nat)
    ensures k < 64 && (len + 1 + k + 8) % 64 == 0
  {
    (119 - len % 64) % 64
  }

  /** The message, one bit, the fewest zeros that fill the block, and eight octets. */
  function Padded(m: seq<byte>, length: seq<byte>): (p: seq<byte>)
    requires |length| == 8
    ensures |p| % 64 == 0
  {
    m + [0x80] + Zeros(ZerosFor(|m|)) + length
  }

  /** Section 4 of RFC 3174: the length in bits, most significant octet first. */
  function Sha1Padded(m: seq<byte>): seq<byte> {
    Padded(m, BigEndian(8 * |m|, 8))
  }

  function Reverse(s: seq<byte>): (r: seq<byte>)
    ensures |r| == |s|
  {
    if s == [] then [] else Reverse(s[1..]) + [s[0]]
  }

  function LittleEndian(n: nat, k: nat): (s: seq<byte>)
    ensures |s| == k
  {
    if k == 0 then [] else [n % 256] + LittleEndian(n / 256, k - 1)
  }

  /** Sections 3.1 and 3.2 of RFC 1321: the length in bits, least significant octet first. */
  function Md5Padded(m: seq<byte>): seq<byte> {
    Padded(m, LittleEndian(8 * |m|, 8))
  }

  function BigEndianWords(s: Words): seq<byte> {
    if s == [] then [] else BigEndian(s[0], 4) + BigEndianWords(s[1..])
  }

  function LittleEndianWords(s: Words): seq<byte> {
    if s == [] then [] else LittleEndian(s[0], 4) + LittleEndianWords(s[1..])
  }

  // ---------------------------------------------------------------- folding in pieces

  lemma {:induction false} FoldConcat(t: Transform, s: Words, a: seq<byte>, b: seq<byte>)
    requires |a| % 64 == 0 && |b| % 64 == 0
    ensures |a + b| % 64 == 0 && Fold(t, s, a + b) == Fold(t, Fold(t, s, a), b)
    decreases |a|
  {
    if a == [] {
      assert a + b == b;
    } else {
      assert (a + b)[..64] == a[..64] && (a + b)[64..] == a[64..] + b;
      FoldConcat(t, t(s, a[..64]), a[64..], b);
    }
  }

  lemma FoldOne(t: Transform, s: Words, a: seq<byte>, block: seq<byte>)
    requires |a| % 64 == 0 && |block| == 64
    ensures |a + block| % 64 == 0 && Fold(t, s, a + block) == t(Fold(t, s, a), block)
  {
    FoldConcat(t, s, a, block);
    assert block[..64] == block && block[64..] == [];
    assert Fold(t, Fold(t, s, a), block) == Fold(t, t(Fold(t, s, a), block), []);
  }

  /** The octets of m that fill whole blocks. */
  function Full(m: seq<byte>): (f: seq<byte>)
    ensures |f| % 64 == 0 && |f| + |m| % 64 == |m|
  {
    m[..|m| / 64 * 64]
  }

  function Rest(m: seq<byte>): (r: seq<byte>)
    ensures |r| == |m| % 64
  {
    m[|m| / 64 * 64..]
  }

  /** A split after whole blocks with less than a block behind is the one of Full and Rest. */
  lemma SplitIsFull(m: seq<byte>, a: seq<byte>, r: seq<byte>)
    requires m == a + r && |a| % 64 == 0 && |r| < 64
    ensures Full(m) == a && Rest(m) == r
  {
    assert |m| / 64 * 64 == |a|;
  }

  lemma FullRest(m: seq<byte>)
    ensures Full(m) + Rest(m) == m
  {
  }

  /** The context after m: whole blocks are folded in, the rest is in the buffer. */
  ghost predicate Absorbed(t: Transform, init: Words, m: seq<byte>, state: Words, buffer: seq<byte>) {
    && |buffer| == 64 && state == Fold(t, init, Full(m)) && buffer[..|m| % 64] == Rest(m)
  }

  // ---------------------------------------------------------------- the bit counter

  /** The counter after n octets, in two words: it wraps as 64 bits do. */
  ghost predicate Counts(low: Word, high: Word, n: nat) {
    low == 8 * n % WORD && high == 8 * n / WORD % WORD
  }

  /** low += len << 3, a carry if it has become smaller, high += len >> 29. */
  function AddLow(low: Word, len: Word): Word { (low + len * 8 % WORD) % WORD }

  function AddHigh(low: Word, high: Word, len: Word): Word {
    (high + (if AddLow(low, len) < low then 1 else 0) + len / 0x2000_0000) % WORD
  }

  /** The high word in two steps, as it is written. */
  lemma AddHighSteps(low: Word, high: Word, len: Word)
    ensures var carried := if AddLow(low, len) < low then (high + 1) % WORD else high;
            AddHigh(low, high, len) == (carried + len / 0x2000_0000) % WORD
  {
    var carry := if AddLow(low, len) < low then 1 else 0;
    WrapSum(high + carry, len / 0x2000_0000, (high + carry) % WORD);
    hide AddLow;
  }

  lemma CountsOn(low: Word, high: Word, n: nat, len: Word)
    requires Counts(low, high, n)
    ensures Counts(AddLow(low, len), AddHigh(low, high, len), n + len)
  {
    var r, q := len * 8 % WORD, len / 0x2000_0000;
    assert len * 8 == q * WORD + r;
    var carry := if AddLow(low, len) < low then 1 else 0;
    assert low + r == AddLow(low, len) + carry * WORD;
    var h := 8 * n / WORD;
    assert 8 * n == h * WORD + low;
    assert 8 * (n + len) == (h + q + carry) * WORD + AddLow(low, len);
    DivMod(h + q + carry, AddLow(low, len));
    WrapSum(h, q + carry, high);
  }

  lemma DivMod(q: nat, r: Word)
    ensures (q * WORD + r) / WORD == q && (q * WORD + r) % WORD == r
  {
  }

  lemma WrapSum(a: nat, b: nat, c: Word)
    requires c == a % WORD
    ensures (a + b) % WORD == (c + b) % WORD
  {
    assert a == a / WORD * WORD + c;
  }

  /** The eight octets written at the end are the length in bits, modulo 2 to the power 64. */
  lemma CountsBytes(low: Word, high: Word, n: nat)
    requires Counts(low, high, n)
    ensures BigEndian(8 * n, 8) == BigEndian(high, 4) + BigEndian(low, 4)
  {
    var b := 8 * n;
    Pow256s();
    BigEndianDrops(b, 8);
    var w := b % Pow256(8);
    assert w / WORD == high && w % WORD == low by { HighLow(b); }
    BigEndianHalves(w);
  }

  lemma Pow256s()
    ensures Pow256(8) == WORD * WORD
  {
    PowersOf256();
  }

  lemma HighLow(b: nat)
    ensures (b % (WORD * WORD)) / WORD == b / WORD % WORD && (b % (WORD * WORD)) % WORD == b % WORD
  {
    var q, r := b / WORD, b % WORD;
    var h, m := q / WORD, q % WORD;
    assert b == h * (WORD * WORD) + (m * WORD + r);
    QuotientIsUnique(b, WORD * WORD, h, m * WORD + r);
    DivMod(m, r);
  }

  lemma {:induction false} BigEndianDrops(n: nat, k: nat)
    ensures BigEndian(n, k) == BigEndian(n % Pow256(k), k)
  {
    if k > 0 {
      var p := Pow256(k - 1);
      BigEndianDrops(n / 256, k - 1);
      DropDigit(n, p);
    }
  }

  lemma DropDigit(n: nat, p: nat)
    requires p > 0
    ensures (n % (256 * p)) / 256 == n / 256 % p && (n % (256 * p)) % 256 == n % 256
  {
    var a, d := n / 256, n % 256;
    var q, m := a / p, a % p;
    assert a == q * p + m;
    Expand(q, p, m, d);
    QuotientIsUnique(n, 256 * p, q, 256 * m + d);
    DigitSplits(m, d);
  }

  lemma Expand(q: nat, p: nat, m: nat, d: nat)
    ensures 256 * (q * p + m) + d == q * (256 * p) + (256 * m + d)
  {
  }

  lemma DigitSplits(m: nat, d: nat)
    requires d < 256
    ensures (256 * m + d) / 256 == m && (256 * m + d) % 256 == d
  {
  }

  lemma QuotientIsUnique(x: nat, p: nat, q: nat, r: nat)
    requires p > 0 && r < p && x == q * p + r
    ensures x % p == r
  {
    var q', r' := x / p, x % p;
    assert x == q' * p + r';
    if q < q' { MultipleGrows(q, q', p); }
    if q' < q { MultipleGrows(q', q, p); }
  }

  lemma {:induction false} MultipleGrows(a: nat, b: nat, p: nat)
    requires a < b
    ensures a * p + p <= b * p
  {
    assert b * p == (b - 1) * p + p;
    if a < b - 1 {
      MultipleGrows(a, b - 1, p);
    }
  }

  // ---------------------------------------------------------------- SHA-1

  const SHA1_INIT: Words := [0x67452301, 0xEFCDAB89, 0x98BADCFE, 0x10325476, 0xC3D2E1F0]

  lemma BufferFill(low: Word, high: Word, n: nat)
    requires Counts(low, high, n)
    ensures low / 8 % 64 == n % 64
  {
    var h := 8 * n / WORD;
    assert 8 * n == h * WORD + low;
    assert low == 8 * (n - h * 0x2000_0000);
    Mod64(low / 8, h * 0x80_0000);
  }

  lemma Mod64(x: nat, k: nat)
    ensures (x + 64 * k) % 64 == x % 64
  {
  }

  lemma AbsorbedStart(t: Transform, init: Words, buffer: seq<byte>)
    requires |buffer| == 64
    ensures Absorbed(t, init, [], init, buffer) && Counts(0, 0, 0)
  {
    assert Full([]) == [] && Rest([]) == [];
  }

  lemma AbsorbedInBuffer(t: Transform, init: Words, m: seq<byte>, state: Words, before: seq<byte>, after: seq<byte>,
                         data: seq<byte>)
    requires Absorbed(t, init, m, state, before) && |m| % 64 + |data| < 64 && |after| == 64
    requires after[..|m| % 64 + |data|] == before[..|m| % 64] + data
    ensures Absorbed(t, init, m + data, state, after)
  {
    FullRest(m);
    assert Full(m) + (Rest(m) + data) == m + data;
    SplitIsFull(m + data, Full(m), Rest(m) + data);
  }

  /** The block that completes what was in the buffer. */
  lemma AbsorbedBlock(t: Transform, init: Words, m: seq<byte>, state: Words, before: seq<byte>, block: seq<byte>,
                      data: seq<byte>)
    requires Absorbed(t, init, m, state, before) && |block| == 64 && |m| % 64 + |data| == 64
    requires block == before[..|m| % 64] + data
    ensures |m + data| % 64 == 0 && t(state, block) == Fold(t, init, m + data)
  {
    FullRest(m);
    assert Full(m) + block == m + data;
    FoldOne(t, init, Full(m), block);
  }

  lemma NextBlock(t: Transform, init: Words, a: seq<byte>, data: seq<byte>, i: nat, state: Words)
    requires i + 64 <= |data| && |a + data[..i]| % 64 == 0 && state == Fold(t, init, a + data[..i])
    ensures |a + data[..i + 64]| % 64 == 0 && t(state, data[i..i + 64]) == Fold(t, init, a + data[..i + 64])
  {
    FoldOne(t, init, a + data[..i], data[i..i + 64]);
    assert a + data[..i] + data[i..i + 64] == a + data[..i + 64];
  }

  lemma AbsorbedEnd(t: Transform, init: Words, a: seq<byte>, data: seq<byte>, i: nat, state: Words, buffer: seq<byte>)
    requires i <= |data| < i + 64 && |a + data[..i]| % 64 == 0 && state == Fold(t, init, a + data[..i])
    requires |buffer| == 64 && buffer[..|data| - i] == data[i..]
    ensures Absorbed(t, init, a + data, state, buffer)
  {
    assert a + data[..i] + data[i..] == a + data;
    SplitIsFull(a + data, a + data[..i], data[i..]);
  }

  lemma PadStep(len: nat, z: nat)
    requires z <= ZerosFor(len)
    ensures (len + 1 + z) % 64 * 8 == 448 <==> z == ZerosFor(len)
  {
  }

  lemma AllFull(t: Transform, init: Words, m: seq<byte>, state: Words, buffer: seq<byte>)
    requires Absorbed(t, init, m, state, buffer) && |m| % 64 == 0
    ensures state == Fold(t, init, m)
  {
    assert m[..|m|] == m;
  }

  class Sha1 {
    const transform: Transform
    var state: Words
    var count0: Word
    var count1: Word
    const buffer: array<byte>
    ghost var message: seq<byte>

    /** cs_sha1_init. */
    constructor (transform: Transform)
      ensures Valid() && message == [] && this.transform == transform && fresh(buffer)
    {
      this.transform := transform;
      state, count0, count1 := SHA1_INIT, 0, 0;
      buffer := new byte[64];
      message := [];
      new;
      AbsorbedStart(transform, SHA1_INIT, buffer[..]);
      hide Absorbed, Counts;
    }

    /** The context holds what the message so far determines. */
    ghost predicate Valid()
      reads this, buffer
    {
      && buffer.Length == 64
      && Absorbed(transform, SHA1_INIT, message, state, buffer[..])
      && Counts(count0, count1, |message|)
    }

    method AddLength(len: Word, ghost n: nat)
      requires Counts(count0, count1, n)
      modifies this`count0, this`count1
      ensures Counts(count0, count1, n + len)
    {
      CountsOn(count0, count1, n, len);
      AddHighSteps(count0, count1, len);
      hide Counts, AddHigh;
      var j := count0;
      count0 := (count0 + len * 8 % WORD) % WORD;
      if count0 < j {
        count1 := (count1 + 1) % WORD;
      }
      count1 := (count1 + len / 0x2000_0000) % WORD;
    }

    /** cs_sha1_update: len is a 32-bit number, and so is the sum that decides on a transform. */
    method Update(data: seq<byte>)
      requires Valid() && count0 / 8 % 64 + |data| < WORD
      modifies this`state, this`count0, this`count1, this`message, buffer
      ensures Valid() && message == old(message) + data
    {
      var len := |data|;
      var j := count0;
      BufferFill(count0, count1, |message|);
      AddLength(len, |message|);
      hide Absorbed, Counts;
      j := j / 8 % 64;
      if (j + len) % WORD > 63 {
        TakeBlocks(j, data);
      } else {
        KeepForLater(j, data);
      }
      message := message + data;
    }

    /** The other branch: the block in the buffer does not become whole. */
    method KeepForLater(j: nat, data: seq<byte>)
      requires buffer.Length == 64 && Absorbed(transform, SHA1_INIT, message, state, buffer[..])
      requires j == |message| % 64 && j + |data| <= 63
      modifies buffer
      ensures Absorbed(transform, SHA1_INIT, message + data, state, buffer[..])
    {
      hide Absorbed, Fold;
      ghost var before := buffer[..];
      Copy(buffer, j, data);
      assert before[..j] + data == buffer[..][..j + |data|];
      AbsorbedInBuffer(transform, SHA1_INIT, message, state, before, buffer[..], data);
    }

    /** The branch of cs_sha1_update that completes the block in the buffer. */
    method TakeBlocks(j: nat, data: seq<byte>)
      requires buffer.Length == 64 && Absorbed(transform, SHA1_INIT, message, state, buffer[..])
      requires j == |message| % 64 && 63 < j + |data| < WORD
      modifies this`state, buffer
      ensures Absorbed(transform, SHA1_INIT, message + data, state, buffer[..])
    {
      hide Absorbed, Fold;
      var len, i := |data|, 64 - j;
      ghost var before := buffer[..];
      Copy(buffer, j, data[..i]);
      assert buffer[..] == before[..j] + data[..i];
      AbsorbedBlock(transform, SHA1_INIT, message, state, before, buffer[..], data[..i]);
      state := transform(state, buffer[..]);
      i := WholeBlocks(i, data);
      Copy(buffer, 0, data[i..]);
      assert buffer[..][..len - i] == data[i..];
      AbsorbedEnd(transform, SHA1_INIT, message, data, i, state, buffer[..]);
    }

    /** The loop over the blocks that are whole in the piece itself. */
    method WholeBlocks(from: nat, data: seq<byte>) returns (i: nat)
      requires from <= 64 && from <= |data| < WORD - (64 - from) && |message + data[..from]| % 64 == 0
      requires state == Fold(transform, SHA1_INIT, message + data[..from])
      modifies this`state
      ensures i <= |data| < i + 64 && |message + data[..i]| % 64 == 0
      ensures state == Fold(transform, SHA1_INIT, message + data[..i])
    {
      hide Fold;
      i := from;
      while i + 63 < |data|
        invariant i <= |data| && (i - from) % 64 == 0 && i + 63 < WORD && |message + data[..i]| % 64 == 0
        invariant state == Fold(transform, SHA1_INIT, message + data[..i])
      {
        NextBlock(transform, SHA1_INIT, message, data, i, state);
        state := transform(state, data[i..i + 64]);
        i := i + 64;
      }
    }

    /** One more zero. */
    method PadOnce(ghost m: seq<byte>, ghost z: nat) returns (ghost next: nat)
      requires Valid() && message == m + [0x80] + Zeros(z) && z < ZerosFor(|m|)
      modifies this`state, this`count0, this`count1, this`message, buffer
      ensures Valid() && next == z + 1 && message == m + [0x80] + Zeros(next)
      ensures count0 / 8 % 64 * 8 == 448 <==> next == ZerosFor(|m|)
    {
      BufferFill(count0, count1, |message|);
      hide Absorbed, Counts, ZerosFor;
      Update([0]);
      next := z + 1;
      assert m + [0x80] + Zeros(z) + [0] == m + [0x80] + Zeros(next);
      BufferFill(count0, count1, |message|);
      PadStep(|m|, next);
    }

    /** The loop that pads with zeros until eight octets are free. */
    method PadZeros(ghost m: seq<byte>)
      requires Valid() && message == m + [0x80]
      modifies this`state, this`count0, this`count1, this`message, buffer
      ensures Valid() && message == m + [0x80] + Zeros(ZerosFor(|m|))
    {
      ghost var z: nat := 0;
      assert message == m + [0x80] + Zeros(0);
      BufferFill(count0, count1, |message|);
      hide Absorbed, Counts, ZerosFor;
      PadStep(|m|, 0);
      while count0 / 8 % 64 * 8 != 448
        invariant Valid() && message == m + [0x80] + Zeros(z) && z <= ZerosFor(|m|)
        invariant count0 / 8 % 64 * 8 == 448 <==> z == ZerosFor(|m|)
        decreases ZerosFor(|m|) - z
      {
        z := PadOnce(m, z);
      }
    }

    /** cs_sha1_final: the digest is the standard's, however the message was cut. */
    method Final() returns (digest: seq<byte>)
      requires Valid()
      modifies this`state, this`count0, this`count1, this`message, buffer
      ensures digest == BigEndianWords(Fold(transform, SHA1_INIT, old(Sha1Padded(message))))
    {
      var finalcount := BigEndian(count1, 4) + BigEndian(count0, 4);
      ghost var m := message;
      CountsBytes(count0, count1, |m|);
      hide Absorbed, Counts, ZerosFor;
      Update([0x80]);
      PadZeros(m);
      Update(finalcount);
      assert message == Sha1Padded(m);
      AllFull(transform, SHA1_INIT, message, state, buffer[..]);
      digest := WriteWords();
    }

    method WriteWords() returns (digest: seq<byte>)
      ensures digest == BigEndianWords(state)
    {
      digest := [];
      for i := 0 to |state|
        invariant digest + BigEndianWords(state[i..]) == BigEndianWords(state)
      {
        assert state[i..][1..] == state[i + 1..];
        digest := digest + BigEndian(state[i], 4);
      }
    }
  }

  /** The 32-bit sum in the guard of cs_sha1_update is right exactly while it does not wrap. */
  lemma GuardExactly(j: nat, len: Word)
    requires j < 64
    ensures ((j + len) % WORD > 63 <==> j + len > 63) <==> j + len < WORD
  {
    if j + len >= WORD {
      assert (j + len) % WORD == j + len - WORD;
    }
  }

  /** With one octet buffered and a piece of 2^32 - 1 octets the guard sees a sum of 0. */
  lemma GuardFails()
    ensures 1 + 0xFFFF_FFFF > 63 && (1 + 0xFFFF_FFFF) % WORD == 0
  {
    GuardExactly(1, 0xFFFF_FFFF);
  }

  // ---------------------------------------------------------------- MD5

  const MD5_INIT: Words := [0x67452301, 0xefcdab89, 0x98badcfe, 0x10325476]

  lemma {:induction false} ReverseConcat(a: seq<byte>, b: seq<byte>)
    ensures Reverse(a + b) == Reverse(b) + Reverse(a)
  {
    if a == [] {
      assert a + b == b;
    } else {
      assert (a + b)[1..] == a[1..] + b;
      ReverseConcat(a[1..], b);
    }
  }

  lemma {:induction false} ReverseTwice(a: seq<byte>)
    ensures Reverse(Reverse(a)) == a
  {
    if a != [] {
      ReverseConcat(Reverse(a[1..]), [a[0]]);
      ReverseTwice(a[1..]);
      assert Reverse([a[0]]) == [a[0]];
    }
  }

  lemma {:induction false} LittleIsReversed(n: nat, k: nat)
    ensures LittleEndian(n, k) == Reverse(BigEndian(n, k))
  {
    if k > 0 {
      LittleIsReversed(n / 256, k - 1);
      ReverseConcat(BigEndian(n / 256, k - 1), [n % 256]);
      assert Reverse([n % 256]) == [n % 256];
    }
  }

  /** The two words, each least significant octet first, are the counter. */
  lemma CountsLittle(low: Word, high: Word, n: nat)
    requires Counts(low, high, n)
    ensures LittleEndian(8 * n, 8) == LittleEndian(low, 4) + LittleEndian(high, 4)
  {
    CountsBytes(low, high, n);
    LittleIsReversed(8 * n, 8);
    LittleIsReversed(low, 4);
    LittleIsReversed(high, 4);
    ReverseConcat(BigEndian(high, 4), BigEndian(low, 4));
  }

  /** Eight octets tell two counts of octets apart exactly modulo 2 to the power 61. */
  lemma LengthOctetsExactly(a: nat, b: nat)
    ensures LittleEndian(8 * a, 8) == LittleEndian(8 * b, 8) <==> a % 0x2000_0000_0000_0000 == b % 0x2000_0000_0000_0000
  {
    LittleIsReversed(8 * a, 8);
    LittleIsReversed(8 * b, 8);
    ReverseTwice(BigEndian(8 * a, 8));
    ReverseTwice(BigEndian(8 * b, 8));
    Pow256s();
    BigEndianDrops(8 * a, 8);
    BigEndianDrops(8 * b, 8);
    var x, y := 8 * a % Pow256(8), 8 * b % Pow256(8);
    BigEndianRoundTrip(x, 8);
    BigEndianRoundTrip(y, 8);
    EightTimes(a);
    EightTimes(b);
  }

  lemma EightTimes(a: nat)
    ensures 8 * a % (WORD * WORD) == 8 * (a % 0x2000_0000_0000_0000)
  {
  }

  /**
   * cs_md5_update counts only the low 32 bits of the length of one piece: what it counts
   * stands for the piece exactly if the rest is a multiple of 2 to the power 61.
   */
  lemma PieceCountedExactly(len: nat)
    ensures LittleEndian(8 * (len % WORD), 8) == LittleEndian(8 * len, 8) <==> len / WORD % 0x2000_0000 == 0
  {
    LengthOctetsExactly(len % WORD, len);
    var h, l := len / WORD, len % WORD;
    var q, r := h / 0x2000_0000, h % 0x2000_0000;
    assert len == q * 0x2000_0000_0000_0000 + (r * WORD + l);
    QuotientIsUnique(len, 0x2000_0000_0000_0000, q, r * WORD + l);
    QuotientIsUnique(l, 0x2000_0000_0000_0000, 0, l);
  }

  lemma CountLow(n: nat, len: nat, c: nat)
    requires c % 64 == n % 64
    ensures (c + len % WORD) % 64 == (n + len) % 64
  {
    assert len == len / WORD * WORD + len % WORD;
    Mod64(n + len % WORD, len / WORD * 0x400_0000);
  }

  class Md5 {
    const transform: Transform
    var buf: Words
    var bits0: Word
    var bits1: Word
    const input: array<byte>
    ghost var message: seq<byte>
    /** What the bit counter stands for, in octets. */
    ghost var counted: nat

    /** cs_md5_init. */
    constructor (transform: Transform)
      ensures Valid() && message == [] && counted == 0 && this.transform == transform && fresh(input)
    {
      this.transform := transform;
      buf, bits0, bits1 := MD5_INIT, 0, 0;
      input := new byte[64];
      message, counted := [], 0;
      new;
      AbsorbedStart(transform, MD5_INIT, input[..]);
      hide Absorbed, Counts;
    }

    ghost predicate Valid()
      reads this, input
    {
      && input.Length == 64
      && Absorbed(transform, MD5_INIT, message, buf, input[..])
      && Counts(bits0, bits1, counted) && counted % 64 == |message| % 64
    }

    method AddLength(len: Word, ghost n: nat)
      requires Counts(bits0, bits1, n)
      modifies this`bits0, this`bits1
      ensures Counts(bits0, bits1, n + len)
    {
      CountsOn(bits0, bits1, n, len);
      AddHighSteps(bits0, bits1, len);
      hide Counts, AddHigh;
      var t := bits0;
      bits0 := (t + len * 8 % WORD) % WORD;
      if bits0 < t {
        bits1 := (bits1 + 1) % WORD;
      }
      bits1 := (bits1 + len / 0x2000_0000) % WORD;
    }

    /** cs_md5_update. */
    method Update(data: seq<byte>)
      requires Valid()
      modifies this`buf, this`bits0, this`bits1, this`message, this`counted, input
      ensures Valid() && message == old(message) + data && counted == old(counted) + |data| % WORD
    {
      var t := bits0;
      BufferFill(bits0, bits1, counted);
      CountLow(|message|, |data|, counted);
      AddLength(|data| % WORD, counted);
      counted := counted + |data| % WORD;
      hide Absorbed, Counts;
      t := t / 8 % 64;
      Take(t, data);
      message := message + data;
    }

    /** The rest of cs_md5_update: t octets are in the buffer. */
    method Take(t: nat, data: seq<byte>)
      requires input.Length == 64 && Absorbed(transform, MD5_INIT, message, buf, input[..])
      requires t == |message| % 64
      modifies this`buf, input
      ensures Absorbed(transform, MD5_INIT, message + data, buf, input[..])
    {
      ghost var before := input[..];
      var i: nat := 0;
      assert data[..0] == [] && message + [] == message;
      if t == 0 {
        AllFull(transform, MD5_INIT, message, buf, before);
      }
      hide Absorbed;
      if t != 0 {
        if |data| < 64 - t {
          Copy(input, t, data);
          assert before[..t] + data == input[..][..t + |data|];
          AbsorbedInBuffer(transform, MD5_INIT, message, buf, before, input[..], data);
          return;
        }
        i := 64 - t;
        Copy(input, t, data[..i]);
        assert input[..] == before[..t] + data[..i];
        AbsorbedBlock(transform, MD5_INIT, message, buf, before, input[..], data[..i]);
        buf := transform(buf, input[..]);
      }
      TakeBlocks(i, data);
    }

    method TakeBlocks(from: nat, data: seq<byte>)
      requires input.Length == 64 && from <= |data| && |message + data[..from]| % 64 == 0
      requires buf == Fold(transform, MD5_INIT, message + data[..from])
      modifies this`buf, input
      ensures Absorbed(transform, MD5_INIT, message + data, buf, input[..])
    {
      hide Absorbed;
      var i := from;
      while |data| - i >= 64
        invariant i <= |data| && |message + data[..i]| % 64 == 0
        invariant buf == Fold(transform, MD5_INIT, message + data[..i])
      {
        Copy(input, 0, data[i..i + 64]);
        assert input[..] == data[i..i + 64];
        NextBlock(transform, MD5_INIT, message, data, i, buf);
        buf := transform(buf, input[..]);
        i := i + 64;
      }
      Copy(input, 0, data[i..]);
      assert input[..][..|data| - i] == data[i..];
      AbsorbedEnd(transform, MD5_INIT, message, data, i, buf, input[..]);
    }

    /** cs_md5_final: the padding, the counter and the last one or two blocks. */
    method Final() returns (digest: seq<byte>)
      requires Valid()
      modifies this`buf, input
      ensures digest == LittleEndianWords(Fold(transform, MD5_INIT, old(Padded(message, LittleEndian(8 * counted, 8)))))
    {
      ghost var length := LittleEndian(8 * counted, 8);
      CountsLittle(bits0, bits1, counted);
      BufferFill(bits0, bits1, counted);
      hide Counts;
      var count := bits0 / 8 % 64;
      PadLast(count, length, LittleEndian(bits0, 4) + LittleEndian(bits1, 4));
      digest := WriteWords();
    }

    method PadLast(fill: nat, ghost length: seq<byte>, a: seq<byte>)
      requires input.Length == 64 && Absorbed(transform, MD5_INIT, message, buf, input[..])
      requires fill == |message| % 64 && |a| == 8 && length == a
      modifies this`buf, input
      ensures buf == Fold(transform, MD5_INIT, Padded(message, length))
    {
      ghost var before := input[..];
      LastBlocks(transform, MD5_INIT, message, buf, before, length);
      hide Absorbed, Fold, Padded;
      input[fill] := 0x80;
      var p, count := fill + 1, 64 - 1 - fill;
      if count < 8 {
        Clear(input, p, count);
        assert input[..] == before[..fill] + [0x80] + Zeros(63 - fill);
        buf := transform(buf, input[..]);
        Clear(input, 0, 56);
        assert input[..56] == Zeros(56);
      } else {
        Clear(input, p, count - 8);
        assert input[..56] == before[..fill] + [0x80] + Zeros(55 - fill);
      }
      ghost var front := input[..56];
      Copy(input, 56, a);
      assert input[..] == front + length;
      buf := transform(buf, input[..]);
    }

    method WriteWords() returns (digest: seq<byte>)
      ensures digest == LittleEndianWords(buf)
    {
      digest := [];
      for i := 0 to |buf|
        invariant digest + LittleEndianWords(buf[i..]) == LittleEndianWords(buf)
      {
        assert buf[i..][1..] == buf[i + 1..];
        digest := digest + LittleEndian(buf[i], 4);
      }
    }
  }

  /** What padding adds to the octets r in the buffer: one block if the length still fits, else two. */
  lemma LastBlocks(t: Transform, init: Words, m: seq<byte>, state: Words, buffer: seq<byte>, length: seq<byte>)
    requires Absorbed(t, init, m, state, buffer) && |length| == 8
    ensures var c := |m| % 64;
            var r := buffer[..c] + [0x80];
            Fold(t, init, Padded(m, length))
            == if c < 56 then t(state, r + Zeros(55 - c) + length)
               else t(t(state, r + Zeros(63 - c)), Zeros(56) + length)
  {
    var c := |m| % 64;
    var r := buffer[..c] + [0x80];
    FullRest(m);
    if c < 56 {
      var block := r + Zeros(55 - c) + length;
      assert Padded(m, length) == Full(m) + block;
      FoldOne(t, init, Full(m), block);
    } else {
      var first, second := r + Zeros(63 - c), Zeros(56) + length;
      assert Zeros(119 - c) == Zeros(63 - c) + Zeros(56);
      assert Padded(m, length) == Full(m) + first + second;
      FoldOne(t, init, Full(m), first);
      FoldOne(t, init, Full(m) + first, second);
    }
  }

  /** The digest is the standard's if every piece was shorter than 2 to the power 32. */
  lemma Md5PaddedExactly(m: seq<byte>, counted: nat)
    ensures Padded(m, LittleEndian(8 * counted, 8)) == Md5Padded(m)
            <==> counted % 0x2000_0000_0000_0000 == |m| % 0x2000_0000_0000_0000
  {
    LengthOctetsExactly(counted, |m|);
    var a, b := Padded(m, LittleEndian(8 * counted, 8)), Md5Padded(m);
    assert a[|a| - 8..] == LittleEndian(8 * counted, 8) && b[|b| - 8..] == LittleEndian(8 * |m|, 8);
  }

  /** A message handed over as one piece of 2 to the power 32 octets is padded as if it were empty. */
  lemma HugePieceBreaksPadding(m: seq<byte>)
    requires |m| == WORD
    ensures Padded(m, LittleEndian(8 * (|m| % WORD), 8)) != Md5Padded(m)
  {
    Md5PaddedExactly(m, |m| % WORD);
  }
}
