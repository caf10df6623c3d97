/** Octets, network byte order, and the exclusive-or used by masking. */
module Bytes {

  type byte = b: int | 0 <= b < 256

  datatype Option<+T> = None | Some(value: T)

  /** 256 to the power k. */
  function Pow256(k: nat): (p: nat)
    ensures p > 0
  {
    if k == 0 then 1 else 256 * Pow256(k - 1)
  }

  /** The low k octets of n, most significant first. */
  function BigEndian(n: nat, k: nat): (s: seq<byte>)
    ensures |s| == k
  {
    if k == 0 then [] else BigEndian(n / 256, k - 1) + [n % 256]
  }

  /** The number whose octets, most significant first, are s. */
  function FromBigEndian(s: seq<byte>): nat {
    if s == [] then 0 else 256 * FromBigEndian(s[..|s| - 1]) + s[|s| - 1]
  }

  lemma {:induction false} BigEndianRoundTrip(n: nat, k: nat)
    requires n < Pow256(k)
    ensures FromBigEndian(BigEndian(n, k)) == n
  {
    if k > 0 {
      BigEndianRoundTrip(n / 256, k - 1);
      assert BigEndian(n, k)[..k - 1] == BigEndian(n / 256, k - 1);
    }
  }

  lemma {:induction false} FromBigEndianBound(s: seq<byte>)
    ensures FromBigEndian(s) < Pow256(|s|)
  {
    if s != [] {
      FromBigEndianBound(s[..|s| - 1]);
    }
  }

  lemma {:induction false} FromBigEndianConcat(a: seq<byte>, b: seq<byte>)
    ensures FromBigEndian(a + b) == FromBigEndian(a) * Pow256(|b|) + FromBigEndian(b)
  {
    if b == [] {
      assert a + b == a;
    } else {
      var c := b[..|b| - 1];
      FromBigEndianConcat(a, c);
      assert (a + b)[..|a + b| - 1] == a + c;
      Scale(FromBigEndian(a), Pow256(|c|), FromBigEndian(c), b[|b| - 1]);
    }
  }

  lemma Scale(x: nat, p: nat, y: nat, z: nat)
    ensures 256 * (x * p + y) + z == x * (256 * p) + (256 * y + z)
  {
  }

  lemma PowersOf256()
    ensures Pow256(1) == 0x100 && Pow256(2) == 0x1_0000
    ensures Pow256(4) == 0x1_0000_0000 && Pow256(8) == 0x1_0000_0000_0000_0000
  {
    assert Pow256(3) == 0x100_0000;
    assert Pow256(5) == 0x100_0000_0000;
    assert Pow256(7) == 0x100_0000_0000_0000;
  }

  lemma {:induction false} BigEndianOfFrom(s: seq<byte>)
    ensures BigEndian(FromBigEndian(s), |s|) == s
  {
    if s != [] {
      BigEndianOfFrom(s[..|s| - 1]);
    }
  }

  /** Eight octets written as two words. */
  lemma BigEndianHalves(n: nat)
    requires n < Pow256(8)
    ensures BigEndian(n, 8) == BigEndian(n / 0x1_0000_0000, 4) + BigEndian(n % 0x1_0000_0000, 4)
  {
    hide BigEndian, FromBigEndian, Pow256;
    PowersOf256();
    var hi, lo := n / 0x1_0000_0000, n % 0x1_0000_0000;
    BigEndianRoundTrip(hi, 4);
    BigEndianRoundTrip(lo, 4);
    FromBigEndianConcat(BigEndian(hi, 4), BigEndian(lo, 4));
    BigEndianOfFrom(BigEndian(hi, 4) + BigEndian(lo, 4));
  }

  // ---------------------------------------------------------------- sequences

  lemma Assoc<T>(a: seq<T>, b: seq<T>, c: seq<T>)
    ensures (a + b) + c == a + (b + c)
  {
  }

  lemma Slice<T>(s: seq<T>, from: nat, to: nat, a: nat, b: nat)
    requires a <= b && from + b <= to <= |s|
    ensures s[from..to][a..b] == s[from + a..from + b]
  {
    var part, whole := s[from..to][a..b], s[from + a..from + b];
    forall k | 0 <= k < b - a ensures part[k] == whole[k] {
      assert part[k] == s[from..to][a + k] == s[from + (a + k)];
    }
    assert part == whole;
  }

  /** All parts behind each other. */
  function Concat(parts: seq<seq<byte>>): seq<byte> {
    if parts == [] then [] else parts[0] + Concat(parts[1..])
  }

  lemma ConcatFirst(p: seq<byte>, parts: seq<seq<byte>>)
    ensures Concat([p] + parts) == p + Concat(parts)
  {
    assert ([p] + parts)[1..] == parts;
  }

  lemma {:induction false} ConcatSplits(a: seq<seq<byte>>, b: seq<seq<byte>>)
    ensures Concat(a + b) == Concat(a) + Concat(b)
  {
    if a == [] {
      assert a + b == b;
    } else {
      assert a + b == [a[0]] + (a[1..] + b) && a == [a[0]] + a[1..];
      ConcatFirst(a[0], a[1..] + b);
      ConcatFirst(a[0], a[1..]);
      hide Concat;
      ConcatSplits(a[1..], b);
      Assoc(a[0], Concat(a[1..]), Concat(b));
    }
  }

  lemma ConcatLast(parts: seq<seq<byte>>, p: seq<byte>)
    ensures Concat(parts + [p]) == Concat(parts) + p
  {
    ConcatSplits(parts, [p]);
    assert [p][1..] == [] && p + [] == p;
  }

  // ---------------------------------------------------------------- numbers

  function HexDigit(d: nat): byte
    requires d < 16
  {
    if d < 10 then 48 + d else 55 + d
  }

  /** The value of a hexadecimal digit in either case. */
  function HexValue(c: byte): (d: Option<nat>)
    ensures d.Some? ==> d.value < 16
  {
    if 48 <= c <= 57 then Some(c - 48)
    else if 65 <= c <= 70 then Some(c - 55)
    else if 97 <= c <= 102 then Some(c - 87)
    else None
  }

  /** The digits are those of the two alphabets, each in its place. */
  lemma HexValueIsPlace(c: byte, d: nat)
    requires d < 16
    ensures HexValue(c) == Some(d) <==> c == "0123456789abcdef"[d] as int || c == "0123456789ABCDEF"[d] as int
    ensures HexDigit(d) == "0123456789ABCDEF"[d] as int
  {
  }

  /** getu16: the number in front of s in network byte order. */
  function U16(s: seq<byte>): (n: nat)
    requires |s| >= 2
    ensures n == FromBigEndian(s[..2]) && n < 65536
  {
    FromTwo(s[..2]);
    s[0] as nat * 256 + s[1]
  }

  lemma FromTwo(s: seq<byte>)
    requires |s| == 2
    ensures FromBigEndian(s) == s[0] as nat * 256 + s[1]
  {
    assert FromBigEndian(s[..1]) == s[0] by { assert s[..1][..0] == []; }
  }

  /** htons: the low 16 bits in network byte order. */
  function Put16(n: nat): (s: seq<byte>)
    ensures s == BigEndian(n, 2)
  {
    assert BigEndian(n / 256, 1) == [n / 256 % 256];
    [n / 256 % 256, n % 256]
  }

  /** Bitwise exclusive or of the low k bits of a and b. */
  function XorBits(a: nat, b: nat, k: nat): nat {
    if k == 0 then 0 else 2 * XorBits(a / 2, b / 2, k - 1) + (if a % 2 == b % 2 then 0 else 1)
  }

  /** Two to the power k. */
  function Pow2(k: nat): (p: nat)
    ensures p > 0
  {
    if k == 0 then 1 else 2 * Pow2(k - 1)
  }

  lemma {:induction false} XorBitsBound(a: nat, b: nat, k: nat)
    ensures XorBits(a, b, k) < Pow2(k)
  {
    if k > 0 {
      XorBitsBound(a / 2, b / 2, k - 1);
    }
  }

  lemma {:induction false} XorBitsTwice(a: nat, b: nat, k: nat)
    requires a < Pow2(k)
    ensures XorBits(XorBits(a, b, k), b, k) == a
  {
    if k > 0 {
      XorBitsTwice(a / 2, b / 2, k - 1);
      var x := XorBits(a, b, k);
      assert x / 2 == XorBits(a / 2, b / 2, k - 1) && x % 2 == if a % 2 == b % 2 then 0 else 1;
    }
  }

  function Xor(a: byte, b: byte): byte {
    assert Pow2(8) == 256 by { assert Pow2(4) == 16; }
    XorBitsBound(a, b, 8);
    XorBits(a, b, 8)
  }

  lemma XorTwice(a: byte, k: byte)
    ensures Xor(Xor(a, k), k) == a
  {
    assert Pow2(8) == 256 by { assert Pow2(4) == 16; }
    XorBitsTwice(a, k, 8);
  }

  /** Bit i of n, the lowest one first. */
  function Bit(n: nat, i: nat): nat {
    if i == 0 then n % 2 else Bit(n / 2, i - 1)
  }

  lemma {:induction false} XorBitsAt(a: nat, b: nat, k: nat, i: nat)
    requires i < k
    ensures Bit(XorBits(a, b, k), i) == if Bit(a, i) != Bit(b, i) then 1 else 0
  {
    var x := XorBits(a, b, k);
    assert x / 2 == XorBits(a / 2, b / 2, k - 1) && x % 2 == if a % 2 == b % 2 then 0 else 1;
    if i > 0 {
      XorBitsAt(a / 2, b / 2, k - 1, i - 1);
    }
  }

  /** A bit of the exclusive or is set exactly if the bits of the two octets differ. */
  lemma XorIsBitwise(a: byte, b: byte)
    ensures forall i :: 0 <= i < 8 ==> Bit(Xor(a, b), i) == if Bit(a, i) != Bit(b, i) then 1 else 0
  {
    forall i | 0 <= i < 8 ensures Bit(Xor(a, b), i) == if Bit(a, i) != Bit(b, i) then 1 else 0 {
      XorBitsAt(a, b, 8, i);
    }
  }

  /** Digit i of n to base 256, the lowest one first. */
  function Digit(n: nat, i: nat): byte {
    if i == 0 then n % 256 else Digit(n / 256, i - 1)
  }

  /** In network byte order the last octet is the lowest digit. */
  lemma {:induction false} BigEndianAt(n: nat, k: nat, i: nat)
    requires i < k
    ensures BigEndian(n, k)[i] == Digit(n, k - 1 - i)
  {
    if i < k - 1 {
      BigEndianAt(n / 256, k - 1, i);
    }
  }

  /** memmove within one buffer or from one to another. */
  method Move(dst: array<byte>, d: nat, src: array<byte>, s: nat, n: nat)
    requires s + n <= src.Length && d + n <= dst.Length && (src == dst ==> d <= s)
    modifies dst
    ensures dst[..d + n] == old(dst[..d] + src[s..s + n])
    ensures forall k :: d + n <= k < dst.Length ==> dst[k] == old(dst[k])
  {
    ghost var goal := dst[..d] + src[s..s + n];
    var i := 0;
    while i < n
      invariant i <= n
      invariant forall k :: 0 <= k < d + i ==> dst[k] == goal[k]
      invariant forall k :: d + i <= k < dst.Length ==> dst[k] == old(dst[k])
      invariant forall k :: s + i <= k < s + n ==> src[k] == goal[d + (k - s)]
    {
      dst[d + i] := src[s + i];
      i := i + 1;
    }
  }

  /** memcpy of all of data. */
  method Copy(dst: array<byte>, d: nat, data: seq<byte>)
    requires d + |data| <= dst.Length
    modifies dst
    ensures dst[..d + |data|] == old(dst[..d]) + data
    ensures forall k :: d + |data| <= k < dst.Length ==> dst[k] == old(dst[k])
  {
    for i := 0 to |data|
      invariant dst[..d] == old(dst[..d]) && dst[d..d + i] == data[..i]
      invariant forall k :: d + i <= k < dst.Length ==> dst[k] == old(dst[k])
    {
      dst[d + i] := data[i];
    }
  }

  /** memcpy to position at; the position behind it. */
  method PutAt(buf: array<byte>, at: nat, data: seq<byte>) returns (end: nat)
    requires at + |data| <= buf.Length
    modifies buf
    ensures end == at + |data| && buf[..end] == old(buf[..at]) + data
  {
    Copy(buf, at, data);
    end := at + |data|;
  }

  /** memset to zero. */
  method Clear(buf: array<byte>, from: nat, n: nat)
    requires from + n <= buf.Length
    modifies buf
    ensures forall k :: from <= k < from + n ==> buf[k] == 0
    ensures forall k :: 0 <= k < from || from + n <= k < buf.Length ==> buf[k] == old(buf[k])
  {
    for i := 0 to n
      invariant forall k :: from <= k < from + i ==> buf[k] == 0
      invariant forall k :: 0 <= k < from || from + i <= k < buf.Length ==> buf[k] == old(buf[k])
    {
      buf[from + i] := 0;
    }
  }
}
