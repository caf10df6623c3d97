/** String literals of JSON (section 7 of RFC 8259) as json.c reads and writes them. */
module JsonStrings {
  import opened Bytes
  import opened Utf8

  const QUOTE: byte := 34
  const SLASH: byte := 47
  const BACKSLASH: byte := 92
  const UNIT_SEPARATOR: byte := 0x1F

  /** Characters read, and what follows them. */
  datatype Chars = Chars(text: seq<byte>, rest: seq<byte>)

  /** The escapes of one letter. */
  function LetterEscape(c: byte): Option<byte> {
    if c == QUOTE || c == BACKSLASH || c == SLASH then Some(c)
    else if c == 98 then Some(8)     // \b
    else if c == 102 then Some(12)   // \f
    else if c == 110 then Some(10)   // \n
    else if c == 114 then Some(13)   // \r
    else if c == 116 then Some(9)    // \t
    else None
  }

  /** After \u: four digits, or a surrogate pair; the character NUL is refused. */
  function UnicodeEscape(r: seq<byte>): (c: Option<Chars>)
    ensures c.Some? ==> IsChar(c.value.text) && c.value.text != [0] && |c.value.rest| < |r|
  {
    var uc := ReadHex16(r);
    if uc.None? then None
    else if 0xD800 <= uc.value <= 0xDFFF then
      if |r| < 6 || r[4] != BACKSLASH || r[5] != 117 || ReadHex16(r[6..]).None? then None
      else
        var u := FromSurrogates(uc.value, ReadHex16(r[6..]).value);
        if u.None? then None else Some(Chars(WriteChar(u.value), r[10..]))
    else if uc.value == 0 then None
    else
      ReadOfWrite(uc.value);
      Some(Chars(WriteChar(uc.value), r[4..]))
  }

  /** One character of a literal: an escape or a character standing for itself. */
  function NextChar(r: seq<byte>): (c: Option<Chars>)
    requires r != []
    ensures c.Some? ==> IsChar(c.value.text) && |c.value.rest| < |r|
    ensures c.Some? && 0 !in r ==> c.value.text != [0]
  {
    if r[0] == BACKSLASH then
      if |r| == 1 then None
      else if r[1] == 117 then UnicodeEscape(r[2..])
      else if LetterEscape(r[1]).None? then None
      else Some(Chars([LetterEscape(r[1]).value], r[2..]))
    else if r[0] <= 0x1F then None
    else
      var n := CharLen(r);
      if n == 0 then None else Some(Chars(r[..n], r[n..]))
  }

  /** The text up to the closing quotation mark. */
  function ParseChars(r: seq<byte>): (c: Option<Chars>)
    ensures c.Some? ==> |c.value.rest| < |r|
    decreases |r|
  {
    if r == [] then None
    else if r[0] == QUOTE then Some(Chars([], r[1..]))
    else
      var c := NextChar(r);
      if c.None? then None
      else
        var more := ParseChars(c.value.rest);
        if more.None? then None else Some(Chars(c.value.text + more.value.text, more.value.rest))
  }

  /** How emit_string writes one character. */
  function QuoteChar(c: seq<byte>): (q: seq<byte>)
    requires IsChar(c)
    ensures q != []
  {
    if c == [QUOTE] || c == [BACKSLASH] then [BACKSLASH] + c
    else if c == [8] then [BACKSLASH, 98]
    else if c == [12] then [BACKSLASH, 102]
    else if c == [10] then [BACKSLASH, 110]
    else if c == [13] then [BACKSLASH, 114]
    else if c == [9] then [BACKSLASH, 116]
    else if c[0] < 0x1F then [BACKSLASH, 117] + WriteHex16(ReadChar(c))
    else c
  }

  /** emit_string between the quotation marks; an octet that starts no character becomes U+FFFD. */
  function EmitChars(s: seq<byte>): seq<byte> {
    if s == [] then []
    else if CharLen(s) == 0 then [0xEF, 0xBF, 0xBD] + EmitChars(s[1..])
    else QuoteChar(s[..CharLen(s)]) + EmitChars(s[CharLen(s)..])
  }

  function EmitString(s: seq<byte>): seq<byte> {
    [QUOTE] + EmitChars(s) + [QUOTE]
  }

  /** Every character but one is read back; U+001F is written raw, which the reader refuses. */
  lemma NextOfQuote(c: seq<byte>, more: seq<byte>)
    requires IsChar(c) && c != [0]
    ensures var r := QuoteChar(c) + more;
            && r[0] != QUOTE
            && NextChar(r) == if c == [UNIT_SEPARATOR] then None else Some(Chars(c, more))
  {
    hide NextChar, WriteHex16, ReadChar;
    if QuoteChar(c) == c {
      RawReadsBack(c, more);
    } else if c[0] == QUOTE || c[0] == BACKSLASH || c[0] in {8, 9, 10, 12, 13} {
      var letter := QuoteChar(c)[1];
      assert QuoteChar(c) == [BACKSLASH, letter] && c == [c[0]] && LetterEscape(letter) == Some(c[0]);
      LetterReadsBack(letter, c[0], more);
    } else {
      UnicodeReadsBack(c, more);
    }
  }

  lemma RawReadsBack(c: seq<byte>, more: seq<byte>)
    requires IsChar(c) && c[0] >= 0x1F && c[0] != QUOTE && c[0] != BACKSLASH
    ensures (c + more)[0] == c[0]
    ensures NextChar(c + more) == if c == [UNIT_SEPARATOR] then None else Some(Chars(c, more))
  {
    var r := c + more;
    CharLenOfChar(c, more);
    assert r[|c|..] == more && r[0] == c[0];
    assert c[0] == 0x1F <==> c == [UNIT_SEPARATOR];
    hide CharLen;
  }

  lemma LetterReadsBack(letter: byte, x: byte, more: seq<byte>)
    requires letter != 117 && LetterEscape(letter) == Some(x)
    ensures NextChar([BACKSLASH, letter] + more) == Some(Chars([x], more))
  {
    var r := [BACKSLASH, letter] + more;
    assert r[0] == BACKSLASH && r[1] == letter && r[2..] == more;
    hide LetterEscape, UnicodeEscape, CharLen;
  }

  lemma UnicodeReadsBack(c: seq<byte>, more: seq<byte>)
    requires |c| == 1 && 0 < c[0] < 0x1F
    ensures NextChar([BACKSLASH, 117] + WriteHex16(ReadChar(c)) + more) == Some(Chars(c, more))
  {
    assert ReadChar(c) == c[0];
    var r := [BACKSLASH, 117] + WriteHex16(c[0]) + more;
    var e := WriteHex16(c[0]) + more;
    assert r[0] == BACKSLASH && r[1] == 117 && r[2..] == e;
    ReadOfWriteHex16(c[0], more);
    assert e[4..] == more && WriteChar(c[0]) == c;
    hide WriteHex16, ReadHex16, CharLen;
  }

  /** Reading one written character of a longer text. */
  lemma ParseCharsStep(c: seq<byte>, more: seq<byte>)
    requires IsChar(c) && c != [0]
    ensures ParseChars(QuoteChar(c) + more) ==
            if c == [UNIT_SEPARATOR] || ParseChars(more).None? then None
            else Some(Chars(c + ParseChars(more).value.text, ParseChars(more).value.rest))
  {
    hide QuoteChar, NextChar;
    NextOfQuote(c, more);
  }

  lemma EmitCharsStep(s: seq<byte>, tail: seq<byte>)
    requires CharLen(s) > 0
    ensures EmitChars(s) + tail == QuoteChar(s[..CharLen(s)]) + (EmitChars(s[CharLen(s)..]) + tail)
  {
  }

  /** The text of a literal comes back exactly unless it contains U+001F, and then nothing does. */
  lemma {:induction false} StringRoundTrip(s: seq<byte>, rest: seq<byte>)
    requires IsText(s) && 0 !in s
    ensures ParseChars(EmitChars(s) + ([QUOTE] + rest)) ==
            if UNIT_SEPARATOR in s then None else Some(Chars(s, rest))
    decreases |s|
  {
    var tail := [QUOTE] + rest;
    if s == [] {
      assert EmitChars(s) + tail == tail;
      assert ParseChars(tail) == Some(Chars([], tail[1..]));
    } else {
      hide ParseChars, EmitChars, QuoteChar;
      var c, t := s[..CharLen(s)], s[CharLen(s)..];
      assert s == c + t;
      CharOctets(c);
      EmitCharsStep(s, tail);
      ParseCharsStep(c, EmitChars(t) + tail);
      StringRoundTrip(t, rest);
    }
  }

  /** Control octets occur only as whole characters. */
  lemma CharOctets(c: seq<byte>)
    requires IsChar(c)
    ensures UNIT_SEPARATOR in c <==> c == [UNIT_SEPARATOR]
    ensures 0 in c <==> c == [0]
  {
  }

  /** What is read is well-formed text without NUL, so that it can be written again. */
  lemma {:induction false} ParsedText(r: seq<byte>)
    requires 0 !in r && ParseChars(r).Some?
    ensures IsText(ParseChars(r).value.text) && 0 !in ParseChars(r).value.text
    ensures 0 !in ParseChars(r).value.rest
    decreases |r|
  {
    if r[0] != QUOTE {
      var c := NextChar(r).value;
      NextCharSuffix(r);
      ParsedText(c.rest);
      CharIsText(c.text);
      CharOctets(c.text);
      TextConcat(c.text, ParseChars(c.rest).value.text);
    }
  }

  lemma NextCharSuffix(r: seq<byte>)
    requires r != [] && 0 !in r && NextChar(r).Some?
    ensures 0 !in NextChar(r).value.rest
  {
  }
}
