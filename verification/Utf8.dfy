/**
 * The character codecs of json.c: UTF-8 (section 4 of RFC 3629), UTF-16 surrogate pairs
 * (section 2 of RFC 2781) and the four hexadecimal digits of an escape.
 */
module Utf8 {
  import opened Bytes

  predicate IsTail(b: byte) { 0x80 <= b <= 0xBF }

  /** One character by the grammar of section 4 of RFC 3629. */
  predicate IsChar(c: seq<byte>) {
    match |c|
    case 1 => c[0] <= 0x7F
    case 2 => 0xC2 <= c[0] <= 0xDF && IsTail(c[1])
    case 3 =>
      && (|| (c[0] == 0xE0 && 0xA0 <= c[1] <= 0xBF)
          || (0xE1 <= c[0] <= 0xEC && IsTail(c[1]))
          || (c[0] == 0xED && 0x80 <= c[1] <= 0x9F)
          || (0xEE <= c[0] <= 0xEF && IsTail(c[1])))
      && IsTail(c[2])
    case 4 =>
      && (|| (c[0] == 0xF0 && 0x90 <= c[1] <= 0xBF)
          || (0xF1 <= c[0] <= 0xF3 && IsTail(c[1]))
          || (c[0] == 0xF4 && 0x80 <= c[1] <= 0x8F))
      && IsTail(c[2]) && IsTail(c[3])
    case _ => false
  }

  /** A C string: its characters are in front of the one zero, at the end. */
  ghost predicate CString(z: seq<byte>) {
    z != [] && z[|z| - 1] == 0 && forall i :: 0 <= i < |z| - 1 ==> z[i] != 0
  }

  /** The characters from position i on, without the terminator. */
  ghost function Rest(z: seq<byte>, i: nat): seq<byte>
    requires i < |z|
  {
    z[i..|z| - 1]
  }

  /** The length of the character s starts with, or 0. */
  function CharLen(s: seq<byte>): (n: nat)
    ensures n <= 4 && n <= |s|
    ensures n > 0 ==> IsChar(s[..(n)])
    ensures n == 0 ==> forall k :: 1 <= k <= |s| ==> !IsChar(s[..k])
  {
    if |s| >= 1 && IsChar(s[..1]) then 1
    else if |s| >= 2 && IsChar(s[..2]) then 2
    else if |s| >= 3 && IsChar(s[..3]) then 3
    else if |s| >= 4 && IsChar(s[..4]) then 4
    else 0
  }

  /** utf8_validate_cz, looking at one octet after the other and never past the terminator. */
  method ValidateCz(z: seq<byte>, i: nat) returns (len: nat)
    requires CString(z) && i < |z| - 1
    ensures len == CharLen(Rest(z, i))
  {
    ghost var r := Rest(z, i);
    assert forall k :: 0 <= k < |r| ==> r[k] == z[i + k];
    var c := z[i];
    if c <= 0x7F {
      return 1;
    } else if c <= 0xC1 {
      return 0;
    } else if c <= 0xDF {
      if !IsTail(z[i + 1]) { return 0; }
      return 2;
    } else if c <= 0xEF {
      if c == 0xE0 && z[i + 1] < 0xA0 { return 0; }
      if c == 0xED && z[i + 1] > 0x9F { return 0; }
      if !IsTail(z[i + 1]) { return 0; }
      if !IsTail(z[i + 2]) { return 0; }
      return 3;
    } else if c <= 0xF4 {
      if c == 0xF0 && z[i + 1] < 0x90 { return 0; }
      if c == 0xF4 && z[i + 1] > 0x8F { return 0; }
      if !IsTail(z[i + 1]) { return 0; }
      if !IsTail(z[i + 2]) { return 0; }
      if !IsTail(z[i + 3]) { return 0; }
      return 4;
    } else {
      return 0;
    }
  }

  /** No character is the beginning of another. */
  lemma CharLenOfChar(c: seq<byte>, more: seq<byte>)
    requires IsChar(c)
    ensures CharLen(c + more) == |c| && (c + more)[..|c|] == c
  {
    var s := c + more;
    assert s[..|c|] == c;
    assert forall k :: 0 <= k < |c| ==> s[k] == c[k];
  }

  /** Well-formed text: characters one after the other. */
  predicate IsText(s: seq<byte>) {
    s == [] || (CharLen(s) > 0 && IsText(s[CharLen(s)..]))
  }

  lemma {:induction false} TextConcat(a: seq<byte>, b: seq<byte>)
    requires IsText(a) && IsText(b)
    ensures IsText(a + b)
    decreases |a|
  {
    if a == [] {
      assert a + b == b;
    } else {
      var n := CharLen(a);
      assert a + b == a[..n] + (a[n..] + b);
      CharLenOfChar(a[..n], a[n..] + b);
      assert (a + b)[n..] == a[n..] + b;
      TextConcat(a[n..], b);
    }
  }

  lemma CharIsText(c: seq<byte>)
    requires IsChar(c)
    ensures IsText(c)
  {
    CharLenOfChar(c, []);
    assert c + [] == c;
  }

  lemma TextEnds(z: seq<byte>)
    requires CString(z)
    ensures Rest(z, 0) == z[..|z| - 1] && forall i :: 0 <= i < |z| && z[i] == 0 ==> IsText(Rest(z, i))
  {
  }

  /** One character of a text, and what is left of it. */
  lemma TextStep(z: seq<byte>, i: nat)
    requires CString(z) && i < |z| && z[i] != 0
    ensures var n := CharLen(Rest(z, i));
            if n == 0 then !IsText(Rest(z, i)) else i + n < |z| && IsText(Rest(z, i)) == IsText(Rest(z, i + n))
  {
    var n := CharLen(Rest(z, i));
    assert Rest(z, i) != [];
    if n > 0 {
      assert Rest(z, i)[n..] == Rest(z, i + n);
    }
    hide CharLen;
  }

  /** utf8_validate. */
  method Validate(z: seq<byte>) returns (ok: bool)
    requires CString(z)
    ensures ok == IsText(z[..|z| - 1])
  {
    hide IsText, CharLen, Rest;
    TextEnds(z);
    var i := 0;
    while z[i] != 0
      invariant i < |z|
      invariant IsText(Rest(z, 0)) == IsText(Rest(z, i))
      decreases |z| - i
    {
      TextStep(z, i);
      var len := ValidateCz(z, i);
      if len == 0 {
        return false;
      }
      i := i + len;
    }
    return true;
  }

  // ---------------------------------------------------------------- scalar values

  predicate IsScalar(u: nat) { u <= 0x10FFFF && !(0xD800 <= u <= 0xDFFF) }

  lemma ScalarOfThree(c: seq<byte>)
    requires IsChar(c) && |c| == 3
    ensures IsScalar(Join(Join(c[0] % 16, c[1]), c[2]))
  {
    var x := Join(c[0] % 16, c[1]);
    assert x < 1024 && !(0xD800 / 64 <= x <= 0xDFFF / 64);
  }

  lemma ScalarOfFour(c: seq<byte>)
    requires IsChar(c) && |c| == 4
    ensures IsScalar(Join(Join(Join(c[0] % 8, c[1]), c[2]), c[3]))
  {
    var x := Join(c[0] % 8, c[1]);
    assert 16 <= x < 0x110;
  }

  /** utf8_read_char. */
  function ReadChar(c: seq<byte>): (u: nat)
    requires IsChar(c)
    ensures IsScalar(u)
  {
    match |c|
    case 1 => c[0]
    case 2 => Join(c[0] % 32, c[1])
    case 3 => ScalarOfThree(c); Join(Join(c[0] % 16, c[1]), c[2])
    case _ => ScalarOfFour(c); Join(Join(Join(c[0] % 8, c[1]), c[2]), c[3])
  }

  /** Six more bits. */
  function Join(u: nat, c: byte): nat { u * 64 + c % 64 }

  /** utf8_write_char. */
  function WriteChar(u: nat): (c: seq<byte>)
    requires IsScalar(u)
    ensures IsChar(c)
  {
    if u <= 0x7F then [u]
    else if u <= 0x7FF then [0xC0 + u / 64, 0x80 + u % 64]
    else if u <= 0xFFFF then [0xE0 + u / 64 / 64, 0x80 + u / 64 % 64, 0x80 + u % 64]
    else [0xF0 + u / 64 / 64 / 64, 0x80 + u / 64 / 64 % 64, 0x80 + u / 64 % 64, 0x80 + u % 64]
  }

  lemma JoinSplits(u: nat)
    ensures Join(u / 64, 0x80 + u % 64) == u
  {
  }

  lemma SplitJoins(u: nat, c: byte)
    requires IsTail(c)
    ensures Join(u, c) / 64 == u && 0x80 + Join(u, c) % 64 == c
  {
  }

  /** The characters and the scalar values correspond one to one. */
  lemma ReadOfWrite(u: nat)
    requires IsScalar(u)
    ensures ReadChar(WriteChar(u)) == u
  {
    hide Join;
    JoinSplits(u);
    if 0x7F < u <= 0x7FF {
      assert WriteChar(u)[0] % 32 == u / 64;
    } else if 0x7FF < u <= 0xFFFF {
      ReadOfWriteThree(u);
    } else if u > 0xFFFF {
      ReadOfWriteFour(u);
    }
  }

  lemma ReadOfWriteThree(u: nat)
    requires IsScalar(u) && 0x7FF < u <= 0xFFFF
    ensures ReadChar(WriteChar(u)) == u
  {
    hide Join;
    assert WriteChar(u)[0] % 16 == u / 64 / 64;
    JoinSplits(u / 64);
    JoinSplits(u);
  }

  lemma ReadOfWriteFour(u: nat)
    requires IsScalar(u) && 0xFFFF < u
    ensures ReadChar(WriteChar(u)) == u
  {
    hide Join;
    assert WriteChar(u)[0] % 8 == u / 64 / 64 / 64;
    JoinSplits(u / 64 / 64);
    JoinSplits(u / 64);
    JoinSplits(u);
  }

  lemma WriteOfRead(c: seq<byte>)
    requires IsChar(c)
    ensures WriteChar(ReadChar(c)) == c
  {
    if |c| == 2 {
      SplitJoins(c[0] % 32, c[1]);
    } else if |c| == 3 {
      WriteOfReadThree(c);
    } else if |c| == 4 {
      WriteOfReadFour(c);
    }
    hide Join;
  }

  lemma WriteOfReadThree(c: seq<byte>)
    requires IsChar(c) && |c| == 3
    ensures WriteChar(ReadChar(c)) == c
  {
    var x := Join(c[0] % 16, c[1]);
    assert 32 <= x < 1024;
    hide Join;
    var u := Join(x, c[2]);
    JoinAtLeast(x, c[2], 32);
    JoinBelow(x, c[2], 1024);
    SplitJoins(c[0] % 16, c[1]);
    SplitJoins(x, c[2]);
  }

  lemma JoinBelow(u: nat, c: byte, k: nat)
    requires u < k
    ensures Join(u, c) < k * 64
  {
  }

  lemma WriteOfReadFour(c: seq<byte>)
    requires IsChar(c) && |c| == 4
    ensures WriteChar(ReadChar(c)) == c
  {
    var x := Join(c[0] % 8, c[1]);
    assert 16 <= x;
    hide Join;
    var y := Join(x, c[2]);
    var u := Join(y, c[3]);
    JoinAtLeast(x, c[2], 16);
    JoinAtLeast(y, c[3], 16 * 64);
    SplitJoins(c[0] % 8, c[1]);
    SplitJoins(x, c[2]);
    SplitJoins(y, c[3]);
  }

  lemma JoinAtLeast(u: nat, c: byte, k: nat)
    requires u >= k
    ensures Join(u, c) >= k * 64
  {
  }

  /** The scalar value of a character by the table in section 3 of RFC 3629. */
  lemma ReadCharIsTable(c: seq<byte>)
    requires IsChar(c)
    ensures ReadChar(c) == if |c| == 1 then c[0]
                           else if |c| == 2 then (c[0] as int - 0xC0) * 64 + (c[1] as int - 0x80)
                           else if |c| == 3 then
                             (c[0] as int - 0xE0) * 4096 + (c[1] as int - 0x80) * 64 + (c[2] as int - 0x80)
                           else
                             (c[0] as int - 0xF0) * 262144 + (c[1] as int - 0x80) * 4096
                             + (c[2] as int - 0x80) * 64 + (c[3] as int - 0x80)
  {
    forall i | 1 <= i < |c| ensures c[i] % 64 == c[i] - 0x80 { }
  }

  // ---------------------------------------------------------------- surrogate pairs

  /** from_surrogate_pair. */
  function FromSurrogates(uc: nat, lc: nat): (u: Option<nat>)
    ensures u.Some? ==> 0x10000 <= u.value <= 0x10FFFF
  {
    if 0xD800 <= uc <= 0xDBFF && 0xDC00 <= lc <= 0xDFFF
    then Some(0x10000 + (uc % 1024 * 1024 + lc % 1024))
    else None
  }

  /** to_surrogate_pair. */
  function ToSurrogates(u: nat): (nat, nat)
    requires 0x10000 <= u <= 0x10FFFF
  {
    var n := u - 0x10000;
    (n / 1024 % 1024 + 0xD800, n % 1024 + 0xDC00)
  }

  lemma SurrogatesInverse(u: nat, uc: nat, lc: nat)
    ensures 0x10000 <= u <= 0x10FFFF ==> FromSurrogates(ToSurrogates(u).0, ToSurrogates(u).1) == Some(u)
    ensures FromSurrogates(uc, lc).Some? ==> ToSurrogates(FromSurrogates(uc, lc).value) == (uc, lc)
  {
    if 0x10000 <= u <= 0x10FFFF {
      SurrogatesOf(u);
    }
  }

  /** The value of a pair by section 2.2 of RFC 2781: twenty bits, the first ten from the first half. */
  lemma SurrogatesAreTable(uc: nat, lc: nat)
    ensures FromSurrogates(uc, lc)
            == if 0xD800 <= uc < 0xDC00 && 0xDC00 <= lc < 0xE000
               then Some(0x10000 + (uc - 0xD800) * 0x400 + (lc - 0xDC00)) else None
  {
  }

  lemma SurrogatesOf(u: nat)
    requires 0x10000 <= u <= 0x10FFFF
    ensures FromSurrogates(ToSurrogates(u).0, ToSurrogates(u).1) == Some(u)
  {
    var n := u - 0x10000;
    assert n == n / 1024 * 1024 + n % 1024 && n / 1024 < 1024;
  }

  // ---------------------------------------------------------------- hexadecimal

  function Upper(c: byte): byte {
    if 97 <= c <= 122 then c - 32 else c
  }

  /** write_hex16. */
  function WriteHex16(v: nat): seq<byte>
    requires v < 0x10000
  {
    [HexDigit(v / 4096), HexDigit(v / 256 % 16), HexDigit(v / 16 % 16), HexDigit(v % 16)]
  }

  function Pow16(k: nat): nat {
    if k == 0 then 1 else 16 * Pow16(k - 1)
  }

  /** The value of the k hexadecimal digits s starts with. */
  function ReadHex(s: seq<byte>, k: nat): (v: Option<nat>)
    ensures v.Some? ==> k <= |s| && v.value < Pow16(k)
  {
    if k == 0 then Some(0)
    else if |s| < k || HexValue(s[k - 1]).None? || ReadHex(s, k - 1).None? then None
    else Some(16 * ReadHex(s, k - 1).value + HexValue(s[k - 1]).value)
  }

  function ReadHex16(s: seq<byte>): (v: Option<nat>)
    ensures v.Some? ==> v.value < 0x10000 && |s| >= 4
  {
    assert Pow16(2) == 256;
    ReadHex(s, 4)
  }

  /** Four hexadecimal digits, the first one worth most. */
  lemma ReadHex16IsSum(s: seq<byte>)
    ensures ReadHex16(s)
            == if |s| >= 4 && HexValue(s[0]).Some? && HexValue(s[1]).Some? && HexValue(s[2]).Some?
                  && HexValue(s[3]).Some?
               then Some(4096 * HexValue(s[0]).value + 256 * HexValue(s[1]).value
                         + 16 * HexValue(s[2]).value + HexValue(s[3]).value)
               else None
  {
    hide HexValue;
    assert ReadHex(s, 0) == Some(0);
    if |s| >= 4 {
      HexTurn(s, 1);
      HexTurn(s, 2);
      HexTurn(s, 3);
      HexTurn(s, 4);
    }
  }

  lemma HexTurn(s: seq<byte>, k: nat)
    requires 0 < k <= |s|
    ensures ReadHex(s, k) == if HexValue(s[k - 1]).None? || ReadHex(s, k - 1).None? then None
                             else Some(16 * ReadHex(s, k - 1).value + HexValue(s[k - 1]).value)
  {
    hide HexValue;
  }

  lemma HexDigits(v: nat)
    requires v < 0x10000
    ensures v / 16 == 16 * (v / 256) + v / 16 % 16
    ensures v / 256 == 16 * (v / 4096) + v / 256 % 16
  {
  }

  lemma ReadOfWriteHex16(v: nat, more: seq<byte>)
    requires v < 0x10000
    ensures ReadHex16(WriteHex16(v) + more) == Some(v)
  {
    var s := WriteHex16(v) + more;
    HexDigits(v);
    assert ReadHex(s, 1) == Some(v / 4096);
    assert ReadHex(s, 2) == Some(v / 256);
    assert ReadHex(s, 3) == Some(v / 16);
  }

  lemma WriteOfReadHex16(s: seq<byte>)
    requires ReadHex16(s).Some?
    ensures WriteHex16(ReadHex16(s).value) == [Upper(s[0]), Upper(s[1]), Upper(s[2]), Upper(s[3])]
  {
    var v := ReadHex16(s).value;
    assert ReadHex(s, 3).value == v / 16;
    assert ReadHex(s, 2).value == v / 16 / 16;
    assert ReadHex(s, 1).value == v / 16 / 16 / 16;
    HexDigits(v);
  }

  /** parse_hex16: the cursor stays inside the string, and moves on only after a success. */
  method ParseHex16(z: seq<byte>, start: nat) returns (v: Option<nat>)
    requires CString(z) && start < |z|
    ensures v == ReadHex16(Rest(z, start))
  {
    ghost var r := Rest(z, start);
    var ret := 0;
    var k := 0;
    while k < 4
      invariant k <= 4 && ReadHex(r, k) == Some(ret)
    {
      var digit := HexValue(z[start + k]);
      if digit.None? {
        HexStops(r, k);
        return None;
      }
      ret := ret * 16 + digit.value;
      k := k + 1;
    }
    return Some(ret);
  }

  lemma HexStops(s: seq<byte>, k: nat)
    requires k < 4 && (k < |s| ==> HexValue(s[k]).None?)
    ensures ReadHex16(s).None?
  {
    assert ReadHex(s, k + 1).None?;
    if k + 2 <= 4 { assert ReadHex(s, k + 2).None?; }
    if k + 3 <= 4 { assert ReadHex(s, k + 3).None?; }
  }
}
