/**
 * What goes into the hashes of BlockHash and what comes out, octet by octet: the padding of RFC 3174 and
 * RFC 1321, the words before the first block and the order of the octets in a digest.
 */
module HashOctets {
  import opened Bytes
  import opened BlockHash

  /** The least significant octet first. */
  lemma {:induction false} LittleEndianAt(n: nat, k: nat, i: nat)
    requires i < k
    ensures LittleEndian(n, k)[i] == Digit(n, i)
  {
    if i > 0 {
      LittleEndianAt(n / 256, k - 1, i - 1);
    }
  }

  /** A digest of SHA-1 has the words in order, each with its most significant octet first. */
  lemma {:induction false} Sha1DigestAt(s: Words, i: nat, j: nat)
    requires i < |s| && j < 4
    ensures |BigEndianWords(s)| == 4 * |s| && BigEndianWords(s)[4 * i + j] == Digit(s[i], 3 - j)
  {
    BigEndianAt(s[0], 4, j);
    if i > 0 {
      Sha1DigestAt(s[1..], i - 1, j);
    } else if |s| > 1 {
      Sha1DigestAt(s[1..], 0, 0);
    }
    hide BigEndian, Digit;
  }

  /** A digest of MD5 has the words in order, each with its least significant octet first. */
  lemma {:induction false} Md5DigestAt(s: Words, i: nat, j: nat)
    requires i < |s| && j < 4
    ensures |LittleEndianWords(s)| == 4 * |s| && LittleEndianWords(s)[4 * i + j] == Digit(s[i], j)
  {
    LittleEndianAt(s[0], 4, j);
    if i > 0 {
      Md5DigestAt(s[1..], i - 1, j);
    } else if |s| > 1 {
      Md5DigestAt(s[1..], 0, 0);
    }
    hide LittleEndian, Digit;
  }

  /** The message, an octet whose first bit is set, zeros up to the last eight octets, and no block too many. */
  ghost predicate PaddedAs(p: seq<byte>, m: seq<byte>) {
    && |p| % 64 == 0 && |m| + 9 <= |p| <= |m| + 72
    && p[..|m|] == m && p[|m|] == 0x80
    && (forall k :: |m| < k < |p| - 8 ==> p[k] == 0)
  }

  lemma PaddedIs(m: seq<byte>, length: seq<byte>)
    requires |length| == 8
    ensures PaddedAs(Padded(m, length), m)
    ensures var p := Padded(m, length); |p| >= 8 && p[|p| - 8..] == length
  {
  }

  /** The last eight octets are the length in bits, in network byte order. */
  lemma Sha1PaddedIs(m: seq<byte>)
    requires |m| < 0x2000_0000_0000_0000
    ensures var p := Sha1Padded(m); PaddedAs(p, m) && FromBigEndian(p[|p| - 8..]) == 8 * |m|
  {
    PaddedIs(m, BigEndian(8 * |m|, 8));
    PowersOf256();
    BigEndianRoundTrip(8 * |m|, 8);
    hide *;
    assert Sha1Padded(m) == Padded(m, BigEndian(8 * |m|, 8)) by { Sha1PadsWith(m); }
  }

  lemma Sha1PadsWith(m: seq<byte>)
    ensures Sha1Padded(m) == Padded(m, BigEndian(8 * |m|, 8))
  {
  }

  /** The last eight octets are the digits of the length in bits, the lowest first. */
  lemma Md5PaddedIs(m: seq<byte>, i: nat)
    requires i < 8
    ensures var p := Md5Padded(m); PaddedAs(p, m) && p[|p| - 8 + i] == Digit(8 * |m|, i)
  {
    PaddedIs(m, LittleEndian(8 * |m|, 8));
    LittleEndianAt(8 * |m|, 8, i);
    hide Padded, LittleEndian, Digit, PaddedAs;
    var p := Md5Padded(m);
    assert p[|p| - 8 + i] == p[|p| - 8..][i];
  }

  /** The octets of the words that section 3.3 of RFC 1321 and section 6.1 of RFC 3174 begin with. */
  lemma FirstWords()
    ensures LittleEndianWords(MD5_INIT)
            == [0x01, 0x23, 0x45, 0x67] + [0x89, 0xab, 0xcd, 0xef] + [0xfe, 0xdc, 0xba, 0x98] + [0x76, 0x54, 0x32, 0x10]
    ensures BigEndianWords(SHA1_INIT)
            == [0x67, 0x45, 0x23, 0x01] + [0xEF, 0xCD, 0xAB, 0x89] + [0x98, 0xBA, 0xDC, 0xFE] + [0x10, 0x32, 0x54, 0x76]
               + [0xC3, 0xD2, 0xE1, 0xF0]
  {
    var m, h := MD5_INIT, SHA1_INIT;
    Little(m[0], 0x01, 0x23, 0x45, 0x67);
    Little(m[1], 0x89, 0xab, 0xcd, 0xef);
    Little(m[2], 0xfe, 0xdc, 0xba, 0x98);
    Little(m[3], 0x76, 0x54, 0x32, 0x10);
    Big(h[0], 0x67, 0x45, 0x23, 0x01);
    Big(h[1], 0xEF, 0xCD, 0xAB, 0x89);
    Big(h[2], 0x98, 0xBA, 0xDC, 0xFE);
    Big(h[3], 0x10, 0x32, 0x54, 0x76);
    Big(h[4], 0xC3, 0xD2, 0xE1, 0xF0);
    hide BigEndianWords, LittleEndianWords, LittleEndian, BigEndian;
    FourLittle(m[0], m[1], m[2], m[3]);
    FiveBig(h[0], h[1], h[2], h[3], h[4]);
  }

  lemma FourLittle(a: Word, b: Word, c: Word, d: Word)
    ensures LittleEndianWords([a, b, c, d])
            == LittleEndian(a, 4) + LittleEndian(b, 4) + LittleEndian(c, 4) + LittleEndian(d, 4)
  {
    NextLittle(a, [b, c, d]);
    NextLittle(b, [c, d]);
    NextLittle(c, [d]);
    NextLittle(d, []);
    hide LittleEndianWords, LittleEndian;
    assert [a] + [b, c, d] == [a, b, c, d] && [b] + [c, d] == [b, c, d] && [c] + [d] == [c, d] && [d] + [] == [d];
    Right(LittleEndian(a, 4), LittleEndian(b, 4), LittleEndian(c, 4), LittleEndian(d, 4));
  }

  lemma FiveBig(a: Word, b: Word, c: Word, d: Word, e: Word)
    ensures BigEndianWords([a, b, c, d, e])
            == BigEndian(a, 4) + BigEndian(b, 4) + BigEndian(c, 4) + BigEndian(d, 4) + BigEndian(e, 4)
  {
    NextBig(a, [b, c, d, e]);
    NextBig(b, [c, d, e]);
    NextBig(c, [d, e]);
    NextBig(d, [e]);
    NextBig(e, []);
    hide BigEndianWords, BigEndian;
    assert [a] + [b, c, d, e] == [a, b, c, d, e] && [b] + [c, d, e] == [b, c, d, e];
    assert [c] + [d, e] == [c, d, e] && [d] + [e] == [d, e] && [e] + [] == [e];
    var first := BigEndian(a, 4) + BigEndian(b, 4);
    Right(BigEndian(b, 4), BigEndian(c, 4), BigEndian(d, 4), BigEndian(e, 4));
    Around(BigEndian(a, 4), BigEndian(b, 4), BigEndian(c, 4), BigEndian(d, 4), BigEndian(e, 4));
  }

  lemma Right(a: seq<byte>, b: seq<byte>, c: seq<byte>, d: seq<byte>)
    ensures a + (b + (c + (d + []))) == a + b + c + d
  {
  }

  lemma Around(a: seq<byte>, b: seq<byte>, c: seq<byte>, d: seq<byte>, e: seq<byte>)
    ensures a + (b + c + d + e) == a + b + c + d + e
  {
  }

  lemma NextLittle(w: Word, s: Words)
    ensures LittleEndianWords([w] + s) == LittleEndian(w, 4) + LittleEndianWords(s)
    ensures LittleEndianWords([]) == []
  {
    assert ([w] + s)[1..] == s;
    hide LittleEndian;
  }

  lemma NextBig(w: Word, s: Words)
    ensures BigEndianWords([w] + s) == BigEndian(w, 4) + BigEndianWords(s)
    ensures BigEndianWords([]) == []
  {
    assert ([w] + s)[1..] == s;
    hide BigEndian;
  }

  lemma Little(w: Word, a: byte, b: byte, c: byte, d: byte)
    requires w == a + 256 * (b + 256 * (c + 256 * d as int))
    ensures LittleEndian(w, 4) == [a, b, c, d]
  {
    hide *;
    Big(w, d, c, b, a);
    LittleIsReversed(w, 4);
    TwoReversed(d, c);
    TwoReversed(b, a);
    ReverseConcat([d, c], [b, a]);
    assert [d, c] + [b, a] == [d, c, b, a] && [a, b] + [c, d] == [a, b, c, d];
  }

  lemma TwoReversed(a: byte, b: byte)
    ensures Reverse([a, b]) == [b, a]
  {
    OneReversed(a);
    OneReversed(b);
    hide Reverse;
    ReverseConcat([a], [b]);
    assert [a] + [b] == [a, b] && [b] + [a] == [b, a];
  }

  lemma OneReversed(a: byte)
    ensures Reverse([a]) == [a]
  {
    assert [a][1..] == [];
  }

  lemma Big(w: Word, a: byte, b: byte, c: byte, d: byte)
    requires w == d + 256 * (c + 256 * (b + 256 * a as int))
    ensures BigEndian(w, 4) == [a, b, c, d]
  {
    var s := [a, b, c, d];
    FromFour(a, b, c, d);
    hide FromBigEndian, BigEndian;
    BigEndianOfFrom(s);
  }

  lemma FromFour(a: byte, b: byte, c: byte, d: byte)
    ensures FromBigEndian([a, b, c, d]) == d + 256 * (c + 256 * (b + 256 * a as int))
  {
    FromTwo([a, b]);
    Last([a, b], c);
    Last([a, b, c], d);
    assert [a, b] + [c] == [a, b, c] && [a, b, c] + [d] == [a, b, c, d];
    hide FromBigEndian;
  }

  lemma Last(s: seq<byte>, b: byte)
    ensures FromBigEndian(s + [b]) == 256 * FromBigEndian(s) + b
  {
    assert (s + [b])[..|s|] == s;
  }
}
