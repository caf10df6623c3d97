/** Where the character U+001F of a decoded value can come from: only from the escape of its code point. */
module JsonEscapes {
  import opened Bytes
  import opened Utf8
  import opened JsonStrings
  import opened JsonText
  import R = JsonRoundTrip
  import N = JsonNumbers

  /** The six characters of the escape, with the last digit in either case. */
  predicate EscapeAt(r: seq<byte>, k: nat)
    requires k + 6 <= |r|
  {
    r[k..k + 5] == [BACKSLASH, 117, 48, 48, 49] && (r[k + 5] == 70 || r[k + 5] == 102)
  }

  predicate Plain(r: seq<byte>) {
    forall k :: 0 <= k && k + 6 <= |r| ==> !EscapeAt(r, k)
  }

  lemma PlainSuffix(r: seq<byte>, n: nat)
    requires Plain(r) && n <= |r|
    ensures Plain(r[n..])
  {
    forall k | 0 <= k && k + 6 <= |r[n..]| ensures !EscapeAt(r[n..], k) {
      assert !EscapeAt(r, n + k);
      assert r[n..][k..k + 5] == r[n + k..n + k + 5];
    }
  }

  lemma PlainSkip(r: seq<byte>)
    requires Plain(r)
    ensures Plain(SkipSpace(r))
  {
    hide SkipSpace, Plain;
    PlainSuffix(r, |r| - |SkipSpace(r)|);
  }

  /** Four digits with the value of U+001F. */
  lemma SeparatorDigits(s: seq<byte>)
    requires ReadHex16(s) == Some(UNIT_SEPARATOR)
    ensures |s| >= 4 && s[..3] == [48, 48, 49] && (s[3] == 70 || s[3] == 102)
  {
    WriteOfReadHex16(s);
    assert WriteHex16(UNIT_SEPARATOR) == [48, 48, 49, 70];
    assert [Upper(s[0]), Upper(s[1]), Upper(s[2]), Upper(s[3])] == [48, 48, 49, 70];
    hide ReadHex16;
  }

  lemma SeparatorEscape(r: seq<byte>)
    requires UnicodeEscape(r).Some? && UnicodeEscape(r).value.text == [UNIT_SEPARATOR]
    ensures ReadHex16(r) == Some(UNIT_SEPARATOR)
  {
    hide ReadHex16;
  }

  lemma SeparatorShows(r: seq<byte>)
    requires |r| >= 2 && r[0] == BACKSLASH && r[1] == 117
    requires UnicodeEscape(r[2..]).Some? && UnicodeEscape(r[2..]).value.text == [UNIT_SEPARATOR]
    ensures |r| >= 6 && EscapeAt(r, 0)
  {
    SeparatorEscape(r[2..]);
    SeparatorDigits(r[2..]);
    assert r[..5] == [BACKSLASH, 117] + r[2..][..3] && r[5] == r[2..][3];
    hide UnicodeEscape;
  }

  lemma PlainEscape(r: seq<byte>)
    requires |r| >= 2 && r[0] == BACKSLASH && r[1] == 117 && Plain(r) && UnicodeEscape(r[2..]).Some?
    ensures UnicodeEscape(r[2..]).value.text != [UNIT_SEPARATOR] && Plain(UnicodeEscape(r[2..]).value.rest)
  {
    var c := UnicodeEscape(r[2..]).value;
    EscapeRest(r[2..]);
    PlainSuffix(r, |r| - |c.rest|);
    assert r[2..][|r[2..]| - |c.rest|..] == r[|r| - |c.rest|..];
    if c.text == [UNIT_SEPARATOR] {
      SeparatorShows(r);
    }
    hide UnicodeEscape;
  }

  lemma EscapeRest(r: seq<byte>)
    requires UnicodeEscape(r).Some?
    ensures var rest := UnicodeEscape(r).value.rest; |rest| <= |r| && rest == r[|r| - |rest|..]
  {
    hide ReadHex16;
  }

  lemma PlainNext(r: seq<byte>)
    requires r != [] && Plain(r) && NextChar(r).Some?
    ensures NextChar(r).value.text != [UNIT_SEPARATOR] && Plain(NextChar(r).value.rest)
  {
    if r[0] == BACKSLASH {
      PlainSuffix(r, 2);
      if r[1] == 117 {
        PlainEscape(r);
      }
    } else {
      PlainSuffix(r, CharLen(r));
    }
    hide CharLen, UnicodeEscape, Plain;
  }

  lemma {:induction false} PlainChars(r: seq<byte>)
    requires Plain(r) && ParseChars(r).Some?
    ensures UNIT_SEPARATOR !in ParseChars(r).value.text && Plain(ParseChars(r).value.rest)
    decreases |r|
  {
    hide Plain, NextChar;
    if r[0] == QUOTE {
      PlainSuffix(r, 1);
    } else {
      PlainNext(r);
      CharOctets(NextChar(r).value.text);
      PlainChars(NextChar(r).value.rest);
    }
  }

  lemma {:induction false} PlainValue(r: seq<byte>)
    requires Plain(r) && ParseValue(r).Some?
    ensures !Separated(ParseValue(r).value.value) && Plain(ParseValue(r).value.rest)
    decreases |r|, 3
  {
    if r[0] == OPEN_ARRAY || r[0] == OPEN_OBJECT {
      PlainInside(r);
    } else if r[0] == QUOTE {
      PlainString(r);
    } else {
      PlainOther(r);
    }
  }

  lemma PlainString(r: seq<byte>)
    requires Plain(r) && ParseValue(r).Some? && r[0] == QUOTE
    ensures !Separated(ParseValue(r).value.value) && Plain(ParseValue(r).value.rest)
  {
    hide ParseItems, ParseMembers, ParseNumber, ParseChars, Literal, SkipSpace, Plain;
    PlainSuffix(r, 1);
    PlainChars(r[1..]);
  }

  lemma PlainOther(r: seq<byte>)
    requires Plain(r) && ParseValue(r).Some? && r[0] != OPEN_ARRAY && r[0] != OPEN_OBJECT && r[0] != QUOTE
    ensures !Separated(ParseValue(r).value.value) && Plain(ParseValue(r).value.rest)
  {
    OtherRest(r);
    PlainSuffix(r, |r| - |ParseValue(r).value.rest|);
    hide ParseValue, Plain;
  }

  lemma OtherRest(r: seq<byte>)
    requires ParseValue(r).Some? && r[0] != OPEN_ARRAY && r[0] != OPEN_OBJECT && r[0] != QUOTE
    ensures !Separated(ParseValue(r).value.value)
    ensures var rest := ParseValue(r).value.rest; rest == r[|r| - |rest|..]
  {
    hide ParseItems, ParseMembers, ParseChars, SkipSpace, N.NumberLen;
  }

  lemma {:induction false} PlainInside(r: seq<byte>)
    requires Plain(r) && ParseValue(r).Some? && (r[0] == OPEN_ARRAY || r[0] == OPEN_OBJECT)
    ensures !Separated(ParseValue(r).value.value) && Plain(ParseValue(r).value.rest)
    decreases |r|, 2
  {
    hide ParseItems, ParseMembers, ParseNumber, ParseChars, Literal, SkipSpace, Plain;
    PlainSuffix(r, 1);
    PlainSkip(r[1..]);
    var s := SkipSpace(r[1..]);
    PlainSuffix(s, 1);
    if r[0] == OPEN_ARRAY && s[0] != CLOSE_ARRAY {
      PlainItems(s);
    }
    if r[0] == OPEN_OBJECT && s[0] != CLOSE_OBJECT {
      PlainMembers(s);
    }
  }

  lemma {:induction false} PlainItems(r: seq<byte>)
    requires Plain(r) && ParseItems(r).Some?
    ensures forall i :: 0 <= i < |ParseItems(r).value.items| ==> !Separated(ParseItems(r).value.items[i])
    ensures Plain(ParseItems(r).value.rest)
    decreases |r|, 4
  {
    hide ParseValue, SkipSpace, Separated, Plain;
    PlainValue(r);
    PlainSkip(ParseValue(r).value.rest);
    var s := SkipSpace(ParseValue(r).value.rest);
    PlainSuffix(s, 1);
    if s[0] == COMMA {
      PlainSkip(s[1..]);
      PlainItems(SkipSpace(s[1..]));
    }
  }

  lemma PlainKey(r: seq<byte>)
    requires Plain(r) && ParseKey(r).Some?
    ensures UNIT_SEPARATOR !in ParseKey(r).value.text && Plain(ParseKey(r).value.rest)
  {
    hide ParseChars, SkipSpace, Plain;
    PlainSuffix(r, 1);
    PlainChars(r[1..]);
    PlainSkip(ParseChars(r[1..]).value.rest);
    var s := SkipSpace(ParseChars(r[1..]).value.rest);
    PlainSuffix(s, 1);
    PlainSkip(s[1..]);
  }

  lemma {:induction false} PlainMembers(r: seq<byte>)
    requires Plain(r) && ParseMembers(r).Some?
    ensures var members := ParseMembers(r).value.members;
            forall i :: 0 <= i < |members| ==> !R.SeparatedMember(members[i])
    ensures Plain(ParseMembers(r).value.rest)
    decreases |r|, 4
  {
    hide ParseValue, ParseKey, SkipSpace, Separated, Plain;
    PlainKey(r);
    var k := ParseKey(r).value;
    PlainValue(k.rest);
    var v := ParseValue(k.rest).value;
    PlainSkip(v.rest);
    var s := SkipSpace(v.rest);
    PlainSuffix(s, 1);
    if s[0] == COMMA {
      PlainSkip(s[1..]);
      PlainMembers(SkipSpace(s[1..]));
    }
  }

  /** A decoded value with U+001F comes from a text that holds the escape. */
  lemma SeparatorWasEscaped(text: seq<byte>)
    requires Decode(text).Some? && Separated(Decode(text).value)
    ensures exists k :: 0 <= k && k + 6 <= |text| && EscapeAt(text, k)
  {
    if Plain(text) {
      PlainSkip(text);
      PlainValue(SkipSpace(text));
    }
    hide Separated, ParseValue, SkipSpace, EscapeAt;
  }
}
