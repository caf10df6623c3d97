/**
 * The grammar of JSON texts (RFC 8259) by itself: every text as it can be written, with all its escapes and white
 * space, and what it means. json_decode accepts exactly these texts, with exactly this meaning.
 */
module JsonGrammar {
  import opened Bytes
  import opened Utf8
  import opened JsonStrings
  import opened JsonText
  import opened JsonRoundTrip
  import N = JsonNumbers

  // ---------------------------------------------------------------- strings (section 7)

  /** A character, an escape of one letter, an escape of four digits, or a pair of these. */
  datatype Piece =
    | Plain(c: seq<byte>)
    | Short(letter: byte)
    | Unit(digits: seq<byte>)
    | Pair(high: seq<byte>, low: seq<byte>)

  function Hex(c: byte): int {
    if 48 <= c <= 57 then c - 48 else if 65 <= c <= 70 then c - 55 else if 97 <= c <= 102 then c - 87 else -1
  }

  predicate FourDigits(d: seq<byte>) {
    |d| == 4 && Hex(d[0]) >= 0 && Hex(d[1]) >= 0 && Hex(d[2]) >= 0 && Hex(d[3]) >= 0
  }

  function Number(d: seq<byte>): int
    requires FourDigits(d)
  {
    0x1000 * Hex(d[0]) + 0x100 * Hex(d[1]) + 0x10 * Hex(d[2]) + Hex(d[3])
  }

  /** U+0000 has no place in a C string, and surrogates stand for characters only as pairs. */
  predicate Good(p: Piece) {
    match p
    case Plain(c) => IsChar(c) && c[0] >= 0x20 && c[0] != 34 && c[0] != 92
    case Short(letter) => letter in {34, 92, 47, 98, 102, 110, 114, 116}
    case Unit(d) => FourDigits(d) && Number(d) != 0 && !(0xD800 <= Number(d) <= 0xDFFF)
    case Pair(h, l) =>
      FourDigits(h) && FourDigits(l) && 0xD800 <= Number(h) <= 0xDBFF && 0xDC00 <= Number(l) <= 0xDFFF
  }

  function PieceText(p: Piece): seq<byte> {
    match p
    case Plain(c) => c
    case Short(letter) => [92, letter]
    case Unit(d) => [92, 117] + d
    case Pair(h, l) => [92, 117] + h + [92, 117] + l
  }

  function PieceMeans(p: Piece): seq<byte> {
    if !Good(p) then []
    else match p
    case Plain(c) => c
    case Short(letter) =>
      if letter == 98 then [8] else if letter == 102 then [12] else if letter == 110 then [10]
      else if letter == 114 then [13] else if letter == 116 then [9] else [letter]
    case Unit(d) => WriteChar(Number(d))
    case Pair(h, l) => WriteChar(0x10000 + (Number(h) - 0xD800) * 0x400 + (Number(l) - 0xDC00))
  }

  predicate AllGood(ps: seq<Piece>) { forall i :: 0 <= i < |ps| ==> Good(ps[i]) }

  function PiecesText(ps: seq<Piece>): seq<byte> {
    if ps == [] then [] else PieceText(ps[0]) + PiecesText(ps[1..])
  }

  function PiecesMean(ps: seq<Piece>): seq<byte> {
    if ps == [] then [] else PieceMeans(ps[0]) + PiecesMean(ps[1..])
  }

  lemma HexIsValue(c: byte)
    ensures HexValue(c) == if Hex(c) >= 0 then Some(Hex(c)) else None
  {
  }

  lemma DigitsAreRead(d: seq<byte>, more: seq<byte>)
    requires FourDigits(d)
    ensures ReadHex16(d + more) == Some(Number(d)) && (d + more)[4..] == more
  {
    var s := d + more;
    ReadHex16IsSum(s);
    assert s[0] == d[0] && s[1] == d[1] && s[2] == d[2] && s[3] == d[3];
    HexIsValue(d[0]);
    HexIsValue(d[1]);
    HexIsValue(d[2]);
    HexIsValue(d[3]);
    hide ReadHex16;
  }

  lemma ReadAreDigits(s: seq<byte>)
    requires ReadHex16(s).Some?
    ensures |s| >= 4 && FourDigits(s[..4]) && Number(s[..4]) == ReadHex16(s).value
  {
    ReadHex16IsSum(s);
    HexIsValue(s[0]);
    HexIsValue(s[1]);
    HexIsValue(s[2]);
    HexIsValue(s[3]);
    hide ReadHex16;
  }

  lemma UnitIsRead(d: seq<byte>, more: seq<byte>)
    requires Good(Unit(d))
    ensures UnicodeEscape(d + more) == Some(Chars(WriteChar(Number(d)), more))
  {
    DigitsAreRead(d, more);
    hide ReadHex16, WriteChar;
  }

  lemma PairIsRead(h: seq<byte>, l: seq<byte>, more: seq<byte>)
    requires Good(Pair(h, l))
    ensures UnicodeEscape(h + ([92, 117] + (l + more))) == Some(Chars(PieceMeans(Pair(h, l)), more))
  {
    var tail := [92, 117] + (l + more);
    var r := h + tail;
    DigitsAreRead(h, tail);
    DigitsAreRead(l, more);
    assert r[4] == tail[0] == 92 && r[5] == tail[1] == 117 && r[6..] == tail[2..] == l + more;
    assert r[10..] == more;
    SurrogatesAreTable(Number(h), Number(l));
    hide ReadHex16, WriteChar, FromSurrogates;
  }

  /** Every character but U+0000 can be escaped: by four digits, or from U+10000 on by the digits of its pair. */
  lemma CharacterIsEscaped(u: nat, more: seq<byte>)
    requires IsScalar(u) && u > 0
    ensures u < 0x10000 ==> UnicodeEscape(WriteHex16(u) + more) == Some(Chars(WriteChar(u), more))
    ensures u >= 0x10000
            ==> var (high, low) := ToSurrogates(u);
                UnicodeEscape(WriteHex16(high) + ([92, 117] + (WriteHex16(low) + more)))
                == Some(Chars(WriteChar(u), more))
  {
    if u < 0x10000 {
      WrittenDigits(u);
      UnitIsRead(WriteHex16(u), more);
    } else {
      var (high, low) := ToSurrogates(u);
      WrittenDigits(high);
      WrittenDigits(low);
      SurrogatesInverse(u, high, low);
      SurrogatesAreTable(high, low);
      PairIsRead(WriteHex16(high), WriteHex16(low), more);
    }
    hide UnicodeEscape, WriteHex16, WriteChar, FromSurrogates, FourDigits, Number;
  }

  lemma WrittenDigits(v: nat)
    requires v < 0x10000
    ensures FourDigits(WriteHex16(v)) && Number(WriteHex16(v)) == v
  {
    ReadOfWriteHex16(v, []);
    assert WriteHex16(v) + [] == WriteHex16(v) && WriteHex16(v)[..4] == WriteHex16(v);
    ReadAreDigits(WriteHex16(v));
    hide ReadHex16;
  }

  /** A first half without a second one behind it, or a second half alone, is refused. */
  lemma SurrogateNeedsItsPair(r: seq<byte>)
    requires ReadHex16(r).Some? && 0xD800 <= ReadHex16(r).value <= 0xDFFF
    ensures UnicodeEscape(r).Some?
            <==> && ReadHex16(r).value <= 0xDBFF && |r| >= 10 && r[4] == 92 && r[5] == 117
                 && ReadHex16(r[6..]).Some? && 0xDC00 <= ReadHex16(r[6..]).value <= 0xDFFF
  {
    if |r| >= 6 && ReadHex16(r[6..]).Some? {
      SurrogatesAreTable(ReadHex16(r).value, ReadHex16(r[6..]).value);
    }
    hide ReadHex16, WriteChar, FromSurrogates;
  }

  lemma PieceIsRead(p: Piece, more: seq<byte>)
    requires Good(p)
    ensures var r := PieceText(p) + more; r[0] != 34 && NextChar(r) == Some(Chars(PieceMeans(p), more))
  {
    var r := PieceText(p) + more;
    match p
    case Plain(c) =>
      CharLenOfChar(c, more);
      assert r[..|c|] == c && r[|c|..] == more;
      hide CharLen;
    case Short(letter) =>
      assert r[0] == 92 && r[1] == letter && r[2..] == more;
      hide CharLen, UnicodeEscape;
    case Unit(d) =>
      assert r[0] == 92 && r[1] == 117 && r[2..] == d + more;
      UnitIsRead(d, more);
      hide CharLen, UnicodeEscape, WriteChar;
    case Pair(h, l) =>
      assert r == [92, 117] + (h + ([92, 117] + (l + more)));
      assert r[0] == 92 && r[1] == 117 && r[2..] == h + ([92, 117] + (l + more));
      PairIsRead(h, l, more);
      hide CharLen, UnicodeEscape, WriteChar;
  }

  /** Every string literal is read, as what it means. */
  lemma {:induction false} StringIsRead(ps: seq<Piece>, rest: seq<byte>)
    requires AllGood(ps)
    ensures ParseChars(PiecesText(ps) + ([34] + rest)) == Some(Chars(PiecesMean(ps), rest))
    decreases |ps|
  {
    var tail := [34] + rest;
    hide PieceText, PieceMeans, NextChar, Good, ParseChars;
    if ps == [] {
      assert PiecesText(ps) + tail == tail;
      QuoteEnds(rest);
    } else {
      var more := PiecesText(ps[1..]) + tail;
      Assoc(PieceText(ps[0]), PiecesText(ps[1..]), tail);
      PieceIsRead(ps[0], more);
      StringIsRead(ps[1..], rest);
      CharIsRead(PieceText(ps[0]) + more);
    }
  }

  lemma QuoteEnds(rest: seq<byte>)
    ensures ParseChars([34] + rest) == Some(Chars([], rest))
  {
    assert ([34] + rest)[1..] == rest;
  }

  lemma CharIsRead(r: seq<byte>)
    requires r != [] && r[0] != 34 && NextChar(r).Some? && ParseChars(NextChar(r).value.rest).Some?
    ensures var c, more := NextChar(r).value, ParseChars(NextChar(r).value.rest).value;
            ParseChars(r) == Some(Chars(c.text + more.text, more.rest))
  {
    hide NextChar;
  }

  // ---------------------------------------------------------------- and nothing else is read as a string

  lemma ReadIsPlain(r: seq<byte>) returns (p: Piece)
    requires r != [] && r[0] != 34 && r[0] != 92 && NextChar(r).Some?
    ensures Good(p) && r == PieceText(p) + NextChar(r).value.rest && NextChar(r).value.text == PieceMeans(p)
  {
    var n := CharLen(r);
    CharLenIsChar(r);
    assert r == r[..n] + r[n..];
    hide CharLen, IsChar;
    p := Plain(r[..n]);
  }

  lemma CharLenIsChar(r: seq<byte>)
    requires CharLen(r) > 0
    ensures IsChar(r[..CharLen(r)]) && r[..CharLen(r)][0] == r[0]
  {
  }

  lemma ReadIsEscape(r: seq<byte>) returns (p: Piece)
    requires UnicodeEscape(r).Some?
    ensures Good(p) && [92, 117] + r == PieceText(p) + UnicodeEscape(r).value.rest
    ensures UnicodeEscape(r).value.text == PieceMeans(p)
  {
    ReadAreDigits(r);
    var uc := ReadHex16(r).value;
    if 0xD800 <= uc <= 0xDFFF {
      p := ReadIsPair(r);
    } else {
      hide ReadHex16, WriteChar;
      p := Unit(r[..4]);
      assert r == r[..4] + r[4..];
    }
  }

  lemma ReadIsPair(r: seq<byte>) returns (p: Piece)
    requires UnicodeEscape(r).Some? && 0xD800 <= ReadHex16(r).value <= 0xDFFF
    ensures Good(p) && [92, 117] + r == PieceText(p) + UnicodeEscape(r).value.rest
    ensures UnicodeEscape(r).value.text == PieceMeans(p)
  {
    ReadAreDigits(r);
    ReadAreDigits(r[6..]);
    SurrogatesAreTable(ReadHex16(r).value, ReadHex16(r[6..]).value);
    hide ReadHex16, WriteChar, FromSurrogates, FourDigits, Number;
    var h, l := r[..4], r[6..][..4];
    p := Pair(h, l);
    assert l == r[6..10];
    assert r == h + [r[4], r[5]] + l + r[10..];
  }

  lemma ReadIsPiece(r: seq<byte>) returns (p: Piece)
    requires r != [] && r[0] != 34 && NextChar(r).Some?
    ensures Good(p) && r == PieceText(p) + NextChar(r).value.rest && NextChar(r).value.text == PieceMeans(p)
  {
    if r[0] != 92 {
      p := ReadIsPlain(r);
    } else if r[1] == 117 {
      p := ReadIsEscape(r[2..]);
      assert r == [92, 117] + r[2..];
      hide UnicodeEscape, Good, PieceText, PieceMeans, CharLen;
    } else {
      p := Short(r[1]);
      assert r == [92, r[1]] + r[2..];
      hide UnicodeEscape, CharLen;
    }
  }

  lemma {:induction false} ReadIsString(r: seq<byte>) returns (ps: seq<Piece>)
    requires ParseChars(r).Some?
    ensures AllGood(ps) && r == PiecesText(ps) + ([34] + ParseChars(r).value.rest)
    ensures ParseChars(r).value.text == PiecesMean(ps)
    decreases |r|
  {
    if r[0] == 34 {
      ps := [];
      assert r == [] + ([34] + r[1..]);
    } else {
      var p := ReadIsPiece(r);
      var more := ReadIsString(NextChar(r).value.rest);
      ps := Prepended(p, more);
      Assoc(PieceText(p), PiecesText(more), [34] + ParseChars(r).value.rest);
      hide PieceText, PieceMeans, NextChar, Good, AllGood, PiecesText, PiecesMean;
    }
  }

  lemma Prepended(p: Piece, more: seq<Piece>) returns (ps: seq<Piece>)
    requires Good(p) && AllGood(more)
    ensures AllGood(ps) && PiecesText(ps) == PieceText(p) + PiecesText(more)
    ensures PiecesMean(ps) == PieceMeans(p) + PiecesMean(more)
  {
    hide Good, PieceText, PieceMeans;
    ps := [p] + more;
    assert ps[1..] == more;
  }

  // ---------------------------------------------------------------- values (sections 2 to 5)

  /** A value as it is written; an empty array or object may have space inside. */
  datatype Syntax =
    | Word(value: Json)
    | Lexeme(lexeme: seq<byte>)
    | Quoted(ps: seq<Piece>)
    | Bracketed(elements: seq<Element>, space: seq<byte>)
    | Braced(fields: seq<Field>, space: seq<byte>)

  datatype Element = Element(before: seq<byte>, value: Syntax, after: seq<byte>)

  datatype Field = Field(
    before: seq<byte>, key: seq<Piece>, mid: seq<byte>, colon: seq<byte>, value: Syntax, after: seq<byte>)

  /** Space, horizontal tab, line feed and carriage return. */
  predicate Space(s: seq<byte>) { forall i :: 0 <= i < |s| ==> s[i] in {32, 9, 10, 13} }

  ghost predicate Proper(v: Syntax)
    decreases v
  {
    match v
    case Word(j) => j in {Null, Bool(true), Bool(false)}
    case Lexeme(l) => N.IsNumber(l)
    case Quoted(ps) => AllGood(ps)
    case Bracketed(es, space) => Space(space) && forall i :: 0 <= i < |es| ==> ProperElement(es[i])
    case Braced(fs, space) => Space(space) && forall i :: 0 <= i < |fs| ==> ProperField(fs[i])
  }

  ghost predicate ProperElement(e: Element)
    decreases e
  {
    Space(e.before) && Space(e.after) && Proper(e.value)
  }

  ghost predicate ProperField(f: Field)
    decreases f
  {
    Space(f.before) && Space(f.mid) && Space(f.colon) && Space(f.after) && AllGood(f.key) && Proper(f.value)
  }

  function TextOf(v: Syntax): seq<byte>
    decreases v, 0
  {
    match v
    case Word(j) =>
      if j == Null then [110, 117, 108, 108]
      else if j == Bool(true) then [116, 114, 117, 101]
      else [102, 97, 108, 115, 101]
    case Lexeme(l) => l
    case Quoted(ps) => [34] + PiecesText(ps) + [34]
    case Bracketed(es, space) => [91] + (if es == [] then space + [93] else ElementsText(es))
    case Braced(fs, space) => [123] + (if fs == [] then space + [125] else FieldsText(fs))
  }

  function ElementText(e: Element): seq<byte>
    decreases e, 1
  {
    e.before + (TextOf(e.value) + e.after)
  }

  /** The elements, a comma behind each but the last, the bracket behind that. */
  function ElementsText(es: seq<Element>): seq<byte>
    requires es != []
    decreases es, 2
  {
    ElementText(es[0]) + (if |es| == 1 then [93] else [44] + ElementsText(es[1..]))
  }

  function FieldText(f: Field): seq<byte>
    decreases f, 1
  {
    f.before + (([34] + PiecesText(f.key) + [34]) + (f.mid + ([58] + (f.colon + (TextOf(f.value) + f.after)))))
  }

  function FieldsText(fs: seq<Field>): seq<byte>
    requires fs != []
    decreases fs, 2
  {
    FieldText(fs[0]) + (if |fs| == 1 then [125] else [44] + FieldsText(fs[1..]))
  }

  function Means(v: Syntax): Json
    decreases v, 0
  {
    match v
    case Word(j) => j
    case Lexeme(l) => Num(l)
    case Quoted(ps) => Str(PiecesMean(ps))
    case Bracketed(es, _) => Arr(ElementsMean(es))
    case Braced(fs, _) => Obj(FieldsMean(fs))
  }

  function ElementsMean(es: seq<Element>): seq<Json>
    decreases es, 1
  {
    if es == [] then [] else [Means(es[0].value)] + ElementsMean(es[1..])
  }

  function FieldsMean(fs: seq<Field>): seq<Member>
    decreases fs, 1
  {
    if fs == [] then [] else [Member(PiecesMean(fs[0].key), Means(fs[0].value))] + FieldsMean(fs[1..])
  }

  // ---------------------------------------------------------------- every text is read

  lemma SpaceIsBlank(s: seq<byte>)
    ensures Space(s) <==> Blank(s)
  {
  }

  lemma TextStarts(v: Syntax)
    requires Proper(v)
    ensures Starts(TextOf(v))
  {
    match v
    case Lexeme(l) =>
      N.ValidIsGrammar(l);
      NumberStart(l);
      hide N.Valid, N.IsNumber;
    case Word(j) =>
    case Quoted(ps) =>
    case Bracketed(es, space) => hide ElementsText;
    case Braced(fs, space) => hide FieldsText;
  }

  lemma QuotedIsRead(ps: seq<Piece>, rest: seq<byte>)
    requires AllGood(ps)
    ensures ParseValue(([34] + PiecesText(ps) + [34]) + rest) == Some(Value(Str(PiecesMean(ps)), rest))
  {
    StringIsRead(ps, rest);
    var chars := PiecesText(ps);
    LiteralShape(chars, rest);
    hide ParseChars, PiecesText, PiecesMean, ParseItems, ParseMembers, ParseNumber, Literal, SkipSpace;
  }

  lemma EmptyIsRead(open: byte, space: seq<byte>, close: byte, rest: seq<byte>)
    requires Space(space) && (open, close) in {(91, 93), (123, 125)}
    ensures ParseValue(([open] + (space + [close])) + rest)
         == Some(Value(if open == 91 then Arr([]) else Obj([]), rest))
  {
    var r := ([open] + (space + [close])) + rest;
    assert r[0] == open && r[1..] == space + ([close] + rest) && ([close] + rest)[1..] == rest;
    SpaceIsBlank(space);
    SkipBlank(space, [close] + rest);
    OpensEmpty(r);
    hide ParseValue, SkipSpace;
  }

  lemma {:induction false} ValueIsRead(v: Syntax, rest: seq<byte>)
    requires Proper(v) && N.Ends(rest)
    ensures ParseValue(TextOf(v) + rest) == Some(Value(Means(v), rest))
    decreases v, 0
  {
    match v
    case Word(j) =>
      LiteralReadsBack(TextOf(v), j, rest);
      hide ParseValue;
    case Lexeme(l) =>
      N.ValidIsGrammar(l);
      NumberReadsBack(l, rest);
      hide ParseValue, N.Valid, N.IsNumber;
    case Quoted(ps) =>
      QuotedIsRead(ps, rest);
      hide ParseValue;
    case Bracketed(es, space) =>
      if es == [] {
        EmptyIsRead(91, space, 93, rest);
        hide ParseValue;
      } else {
        ListIsRead(v, rest);
        hide *;
      }
    case Braced(fs, space) =>
      if fs == [] {
        EmptyIsRead(123, space, 125, rest);
        hide ParseValue;
      } else {
        RecordIsRead(v, rest);
        hide *;
      }
  }

  /** Space, then a value, then space, then one character that ends it. */
  lemma ElementShape(e: Element, c: byte, next: seq<byte>)
    requires ProperElement(e) && c in {93, 44}
    ensures var s := ElementText(e) + ([c] + next);
            && SkipSpace(s) == TextOf(e.value) + (e.after + ([c] + next)) && Starts(SkipSpace(s))
            && N.Ends(e.after + ([c] + next)) && SkipSpace(e.after + ([c] + next)) == [c] + next
            && s == e.before + SkipSpace(s) && Blank(e.before)
  {
    var tail := e.after + ([c] + next);
    var text := TextOf(e.value);
    ElementIs(e);
    hide *;
    TextStarts(e.value);
    SpaceIsBlank(e.before);
    SpaceIsBlank(e.after);
    SkipsTo(e.before, text, tail);
    EndsAt(e.after, c, next);
    Assoc(e.before, text + e.after, [c] + next);
    Assoc(text, e.after, [c] + next);
  }

  lemma ElementIs(e: Element)
    requires ProperElement(e)
    ensures Space(e.before) && Space(e.after) && Proper(e.value)
    ensures ElementText(e) == e.before + (TextOf(e.value) + e.after)
  {
  }

  lemma SkipsTo(gap: seq<byte>, text: seq<byte>, tail: seq<byte>)
    requires Blank(gap) && Starts(text)
    ensures SkipSpace(gap + (text + tail)) == text + tail && Starts(text + tail)
  {
    StartsAppend(text, tail);
    SkipBlank(gap, text + tail);
    hide SkipSpace, Blank;
  }

  lemma EndsAt(gap: seq<byte>, c: byte, next: seq<byte>)
    requires Blank(gap) && c in {93, 125, 44}
    ensures N.Ends(gap + ([c] + next)) && SkipSpace(gap + ([c] + next)) == [c] + next
  {
    GapEnds(gap, c, next);
    GapSkipped(gap, c, next);
    hide SkipSpace, N.Ends, Blank;
  }

  lemma NotEmptyIs(v: Syntax, rest: seq<byte>)
    ensures v.Bracketed? && v.elements != [] ==>
              && TextOf(v) + rest == [91] + (ElementsText(v.elements) + rest)
              && Means(v) == Arr(ElementsMean(v.elements))
    ensures v.Braced? && v.fields != [] ==>
              && TextOf(v) + rest == [123] + (FieldsText(v.fields) + rest) && Means(v) == Obj(FieldsMean(v.fields))
  {
    hide ElementsText, FieldsText, ElementsMean, FieldsMean;
  }

  lemma ElementsSkip(es: seq<Element>, rest: seq<byte>)
    requires es != [] && ProperElement(es[0])
    ensures var s := ElementsText(es) + rest;
            s == es[0].before + SkipSpace(s) && Blank(es[0].before) && Starts(SkipSpace(s))
  {
    ElementsShape(es, rest);
    hide *;
    if |es| == 1 {
      ElementShape(es[0], 93, rest);
    } else {
      ElementShape(es[0], 44, ElementsText(es[1..]) + rest);
    }
  }

  lemma {:induction false} ListIsRead(v: Syntax, rest: seq<byte>)
    requires v.Bracketed? && v.elements != [] && Proper(v)
    ensures ParseValue(TextOf(v) + rest) == Some(Value(Means(v), rest))
    decreases v.elements, 4
  {
    var es := v.elements;
    ElementsFirst(es);
    NotEmptyIs(v, rest);
    hide *;
    ElementsAreRead(es, rest);
    ElementsSkip(es, rest);
    ArrayStart(es[0].before, SkipSpace(ElementsText(es) + rest));
  }

  lemma ElementsShape(es: seq<Element>, rest: seq<byte>)
    requires es != []
    ensures ElementsText(es) + rest
            == ElementText(es[0]) + if |es| == 1 then [93] + rest else [44] + (ElementsText(es[1..]) + rest)
  {
    hide ElementText;
  }

  lemma {:induction false} ElementsAreRead(es: seq<Element>, rest: seq<byte>)
    requires es != [] && forall i :: 0 <= i < |es| ==> ProperElement(es[i])
    ensures ParseItems(SkipSpace(ElementsText(es) + rest)) == Some(Items(ElementsMean(es), rest))
    decreases es, 3
  {
    ElementsFirst(es);
    hide *;
    var e := es[0];
    ElementIs(e);
    ElementsShape(es, rest);
    var s := SkipSpace(ElementsText(es) + rest);
    if |es| == 1 {
      ElementShape(e, 93, rest);
      ValueIsRead(e.value, e.after + ([93] + rest));
      ItemsLast(s, Means(e.value), e.after + ([93] + rest), rest);
    } else {
      var next := ElementsText(es[1..]) + rest;
      ElementShape(e, 44, next);
      ValueIsRead(e.value, e.after + ([44] + next));
      ElementsAreRead(es[1..], rest);
      ItemsMore(s, Means(e.value), e.after + ([44] + next), next);
    }
  }

  lemma ElementsFirst(es: seq<Element>)
    requires es != [] && forall i :: 0 <= i < |es| ==> ProperElement(es[i])
    ensures ProperElement(es[0]) && es[0].value < es[0] && forall i :: 0 <= i < |es[1..]| ==> ProperElement(es[1..][i])
    ensures ElementsMean(es) == [Means(es[0].value)] + ElementsMean(es[1..])
    ensures |es| == 1 ==> ElementsMean(es) == [Means(es[0].value)]
  {
    hide ProperElement, Means;
  }

  /** A key, its colon and all the space, in front of e. */
  lemma KeyIsRead(f: Field, e: seq<byte>)
    requires ProperField(f) && Starts(e)
    ensures var s := ([34] + PiecesText(f.key) + [34]) + (f.mid + ([58] + (f.colon + e)));
            ParseKey(s) == Some(Chars(PiecesMean(f.key), e))
  {
    var after := f.mid + ([58] + (f.colon + e));
    var chars := PiecesText(f.key);
    SpaceIsBlank(f.mid);
    SpaceIsBlank(f.colon);
    StringIsRead(f.key, after);
    LiteralShape(chars, after);
    SkipBlank(f.mid, [58] + (f.colon + e));
    SkipBlank(f.colon, e);
    assert ([58] + (f.colon + e))[1..] == f.colon + e;
    hide ParseChars, SkipSpace, PiecesText, PiecesMean, Space, Blank;
  }

  /** The text of a field in front of what ends it, from the key on. */
  lemma FieldShape(f: Field, c: byte, next: seq<byte>)
    requires ProperField(f) && c in {125, 44}
    ensures var s, tail := FieldText(f) + ([c] + next), f.after + ([c] + next);
            var e := TextOf(f.value) + tail;
            && Starts(e) && N.Ends(tail) && SkipSpace(tail) == [c] + next
            && SkipSpace(s) == ([34] + PiecesText(f.key) + [34]) + (f.mid + ([58] + (f.colon + e)))
            && s == f.before + SkipSpace(s) && Blank(f.before) && Starts(SkipSpace(s))
  {
    var tail := f.after + ([c] + next);
    var text := TextOf(f.value);
    var key := [34] + PiecesText(f.key) + [34];
    assert key[0] == 34;
    TextStarts(f.value);
    SpaceIsBlank(f.before);
    SpaceIsBlank(f.after);
    hide TextOf, Proper, SkipSpace, N.Ends, Space, Blank, PiecesText;
    StartsAppend(text, tail);
    var all := key + (f.mid + ([58] + (f.colon + (text + tail))));
    SkipBlank(f.before, all);
    SkipBlank(f.after, [c] + next);
    GapEnds(f.after, c, next);
    FieldRegroup(f.before, key, f.mid, f.colon, text, f.after, [c] + next);
  }

  lemma FieldRegroup(a: seq<byte>, b: seq<byte>, c: seq<byte>, d: seq<byte>, e: seq<byte>, f: seq<byte>, g: seq<byte>)
    ensures (a + (b + (c + ([58] + (d + (e + f)))))) + g == a + (b + (c + ([58] + (d + (e + (f + g))))))
  {
  }

  lemma FieldsShape(fs: seq<Field>, rest: seq<byte>)
    requires fs != []
    ensures FieldsText(fs) + rest
            == FieldText(fs[0]) + if |fs| == 1 then [125] + rest else [44] + (FieldsText(fs[1..]) + rest)
  {
    hide FieldText;
  }

  lemma FieldsSkip(fs: seq<Field>, rest: seq<byte>)
    requires fs != [] && ProperField(fs[0])
    ensures var s := FieldsText(fs) + rest;
            s == fs[0].before + SkipSpace(s) && Blank(fs[0].before) && Starts(SkipSpace(s))
  {
    FieldsShape(fs, rest);
    hide *;
    if |fs| == 1 {
      FieldShape(fs[0], 125, rest);
    } else {
      FieldShape(fs[0], 44, FieldsText(fs[1..]) + rest);
    }
  }

  lemma {:induction false} RecordIsRead(v: Syntax, rest: seq<byte>)
    requires v.Braced? && v.fields != [] && Proper(v)
    ensures ParseValue(TextOf(v) + rest) == Some(Value(Means(v), rest))
    decreases v.fields, 4
  {
    var fs := v.fields;
    FieldsFirst(fs);
    NotEmptyIs(v, rest);
    hide *;
    FieldsAreRead(fs, rest);
    FieldsSkip(fs, rest);
    ObjectStart(fs[0].before, SkipSpace(FieldsText(fs) + rest));
  }

  lemma {:induction false} FieldsAreRead(fs: seq<Field>, rest: seq<byte>)
    requires fs != [] && forall i :: 0 <= i < |fs| ==> ProperField(fs[i])
    ensures ParseMembers(SkipSpace(FieldsText(fs) + rest)) == Some(Members(FieldsMean(fs), rest))
    decreases fs, 3
  {
    FieldsFirst(fs);
    hide *;
    var f := fs[0];
    FieldIs(f);
    FieldsShape(fs, rest);
    var s, mean := SkipSpace(FieldsText(fs) + rest), PiecesMean(f.key);
    if |fs| == 1 {
      var tail := f.after + ([125] + rest);
      FieldShape(f, 125, rest);
      KeyIsRead(f, TextOf(f.value) + tail);
      ValueIsRead(f.value, tail);
      MembersLast(s, Chars(mean, TextOf(f.value) + tail), Means(f.value), tail, rest);
    } else {
      var next := FieldsText(fs[1..]) + rest;
      var tail := f.after + ([44] + next);
      FieldShape(f, 44, next);
      KeyIsRead(f, TextOf(f.value) + tail);
      ValueIsRead(f.value, tail);
      FieldsAreRead(fs[1..], rest);
      MembersMore(s, Chars(mean, TextOf(f.value) + tail), Means(f.value), tail, next);
    }
  }

  lemma FieldsFirst(fs: seq<Field>)
    requires fs != [] && forall i :: 0 <= i < |fs| ==> ProperField(fs[i])
    ensures ProperField(fs[0]) && fs[0].value < fs[0] && forall i :: 0 <= i < |fs[1..]| ==> ProperField(fs[1..][i])
    ensures FieldsMean(fs) == [Member(PiecesMean(fs[0].key), Means(fs[0].value))] + FieldsMean(fs[1..])
    ensures |fs| == 1 ==> FieldsMean(fs) == [Member(PiecesMean(fs[0].key), Means(fs[0].value))]
  {
    hide ProperField, Means, PiecesMean;
  }

  lemma FieldIs(f: Field)
    requires ProperField(f)
    ensures Space(f.before) && Space(f.mid) && Space(f.colon) && Space(f.after) && AllGood(f.key) && Proper(f.value)
  {
  }

  /** json_decode reads every text of the grammar, with space around it, as what it means. */
  lemma TextIsDecoded(before: seq<byte>, v: Syntax, after: seq<byte>)
    requires Space(before) && Proper(v) && Space(after)
    ensures Decode(before + TextOf(v) + after) == Some(Means(v))
  {
    SpaceIsBlank(before);
    SpaceIsBlank(after);
    TextStarts(v);
    SpaceEnds(after);
    ValueIsRead(v, after);
    SpaceSkipped(after);
    SkipsTo(before, TextOf(v), after);
    Assoc(before, TextOf(v), after);
    hide Proper, TextOf, Means, ParseValue, SkipSpace, Space, Blank, N.Ends;
  }

  lemma SpaceSkipped(s: seq<byte>)
    requires Blank(s)
    ensures SkipSpace(s) == []
  {
    SkipBlank(s, []);
    assert s + [] == s;
  }

  lemma SpaceEnds(s: seq<byte>)
    requires Space(s)
    ensures N.Ends(s)
  {
  }

  // ---------------------------------------------------------------- and nothing else is read

  lemma SkippedSpace(r: seq<byte>) returns (gap: seq<byte>)
    ensures Space(gap) && r == gap + SkipSpace(r)
  {
    gap := r[..|r| - |SkipSpace(r)|];
    SkippedIsSpace(r);
    assert r == gap + r[|r| - |SkipSpace(r)|..];
    hide SkipSpace;
  }

  lemma {:induction false} SkippedIsSpace(r: seq<byte>)
    ensures Space(r[..|r| - |SkipSpace(r)|])
  {
    if r != [] && IsSpace(r[0]) {
      SkippedIsSpace(r[1..]);
      var n := |r| - |SkipSpace(r)|;
      assert r[..n] == [r[0]] + r[1..][..n - 1];
    }
  }

  lemma {:induction false} ReadIsValue(r: seq<byte>) returns (v: Syntax)
    requires ParseValue(r).Some?
    ensures Proper(v) && r == TextOf(v) + ParseValue(r).value.rest && ParseValue(r).value.value == Means(v)
    decreases |r|, 3
  {
    if r[0] == 91 {
      v := ReadIsList(r);
    } else if r[0] == 123 {
      v := ReadIsRecord(r);
    } else {
      v := ReadIsScalar(r);
    }
    hide ParseValue, Proper, TextOf, Means;
  }

  lemma ReadIsScalar(r: seq<byte>) returns (v: Syntax)
    requires ParseValue(r).Some? && r[0] != 91 && r[0] != 123
    ensures Proper(v) && r == TextOf(v) + ParseValue(r).value.rest && ParseValue(r).value.value == Means(v)
  {
    if r[0] == 34 {
      v := ReadIsQuoted(r);
    } else if r[0] == 110 || r[0] == 116 || r[0] == 102 {
      v := ReadIsWord(r);
    } else {
      v := ReadIsLexeme(r);
    }
    hide ParseValue, Proper, TextOf, Means;
  }

  lemma ReadIsQuoted(r: seq<byte>) returns (v: Syntax)
    requires ParseValue(r).Some? && r[0] == 34
    ensures Proper(v) && r == TextOf(v) + ParseValue(r).value.rest && ParseValue(r).value.value == Means(v)
  {
    hide ParseItems, ParseMembers, ParseNumber, ParseChars, Literal, SkipSpace, PiecesText, PiecesMean, AllGood;
    var ps := ReadIsString(r[1..]);
    v := Quoted(ps);
    var rest := ParseChars(r[1..]).value.rest;
    assert r == [34] + r[1..];
    assert [34] + (PiecesText(ps) + ([34] + rest)) == ([34] + PiecesText(ps) + [34]) + rest;
  }

  lemma ReadIsWord(r: seq<byte>) returns (v: Syntax)
    requires ParseValue(r).Some? && r[0] in {110, 116, 102}
    ensures Proper(v) && r == TextOf(v) + ParseValue(r).value.rest && ParseValue(r).value.value == Means(v)
  {
    v := Word(ParseValue(r).value.value);
    assert r == TextOf(v) + r[|TextOf(v)|..];
    hide ParseItems, ParseMembers, ParseNumber, ParseChars, SkipSpace;
  }

  lemma ReadIsLexeme(r: seq<byte>) returns (v: Syntax)
    requires ParseValue(r).Some? && r[0] !in {91, 123, 34, 110, 116, 102}
    ensures Proper(v) && r == TextOf(v) + ParseValue(r).value.rest && ParseValue(r).value.value == Means(v)
  {
    hide ParseValue, N.NumberLen, N.Valid, N.IsNumber;
    OtherIsNumber(r);
    var n := N.NumberLen(r).value;
    N.NumberTaken(r);
    N.ValidIsGrammar(r[..n]);
    v := Lexeme(r[..n]);
    assert r == r[..n] + r[n..];
  }

  lemma FirstApart(s: seq<byte>)
    requires s != []
    ensures s == [s[0]] + s[1..]
  {
  }

  lemma EmptyRegroup(a: byte, b: seq<byte>, c: byte, d: seq<byte>)
    ensures [a] + (b + ([c] + d)) == ([a] + (b + [c])) + d
  {
  }

  lemma EmptyOf(open: byte, gap: seq<byte>) returns (v: Syntax)
    requires Space(gap) && open in {91, 123}
    ensures Proper(v) && TextOf(v) == [open] + (gap + [if open == 91 then 93 else 125])
    ensures Means(v) == if open == 91 then Arr([]) else Obj([])
  {
    hide Space;
    v := if open == 91 then Bracketed([], gap) else Braced([], gap);
  }

  lemma ArrayParts(r: seq<byte>)
    requires ParseValue(r).Some? && r[0] == 91
    ensures var s, v := SkipSpace(r[1..]), ParseValue(r).value;
            && s != [] && |s| < |r|
            && if s[0] == 93 then v == Value(Arr([]), s[1..])
               else ParseItems(s).Some? && v == Value(Arr(ParseItems(s).value.items), ParseItems(s).value.rest)
  {
    hide ParseItems, ParseMembers, ParseNumber, ParseChars, Literal, SkipSpace;
    if SkipSpace(r[1..]) == [] {
      NoItems();
    }
  }

  lemma NoItems()
    ensures ParseItems([]).None? && ParseMembers([]).None?
  {
  }

  lemma ObjectParts(r: seq<byte>)
    requires ParseValue(r).Some? && r[0] == 123
    ensures var s, v := SkipSpace(r[1..]), ParseValue(r).value;
            && s != [] && |s| < |r|
            && if s[0] == 125 then v == Value(Obj([]), s[1..])
               else ParseMembers(s).Some? && v == Value(Obj(ParseMembers(s).value.members), ParseMembers(s).value.rest)
  {
    hide ParseItems, ParseMembers, ParseNumber, ParseChars, Literal, SkipSpace;
    if SkipSpace(r[1..]) == [] {
      NoItems();
    }
  }

  lemma ItemsParts(s: seq<byte>)
    requires ParseItems(s).Some?
    ensures ParseValue(s).Some?
    ensures var v, t, o := ParseValue(s).value, SkipSpace(ParseValue(s).value.rest), ParseItems(s).value;
            && t != [] && t[0] in {93, 44}
            && if t[0] == 93 then o == Items([v.value], t[1..])
               else
                 var more := ParseItems(SkipSpace(t[1..]));
                 more.Some? && |SkipSpace(t[1..])| < |s| && o == Items([v.value] + more.value.items, more.value.rest)
  {
    hide ParseValue, SkipSpace;
  }

  lemma MembersParts(s: seq<byte>)
    requires ParseMembers(s).Some?
    ensures ParseKey(s).Some? && ParseValue(ParseKey(s).value.rest).Some? && |ParseKey(s).value.rest| < |s|
    ensures var k := ParseKey(s).value;
            var v := ParseValue(k.rest).value;
            var t, o, m := SkipSpace(v.rest), ParseMembers(s).value, Member(k.text, v.value);
            && t != [] && t[0] in {125, 44}
            && if t[0] == 125 then o == Members([m], t[1..])
               else
                 var more := ParseMembers(SkipSpace(t[1..]));
                 more.Some? && |SkipSpace(t[1..])| < |s| && o == Members([m] + more.value.members, more.value.rest)
  {
    hide ParseValue, ParseKey, SkipSpace;
  }

  lemma KeyParts(s: seq<byte>)
    requires ParseKey(s).Some?
    ensures s != [] && s[0] == 34 && ParseChars(s[1..]).Some?
    ensures var t := SkipSpace(ParseChars(s[1..]).value.rest);
            && t != [] && t[0] == 58
            && ParseKey(s).value == Chars(ParseChars(s[1..]).value.text, SkipSpace(t[1..]))
  {
    hide ParseChars, SkipSpace;
  }

  lemma {:induction false} ReadIsList(r: seq<byte>) returns (v: Syntax)
    requires ParseValue(r).Some? && r[0] == 91
    ensures Proper(v) && r == TextOf(v) + ParseValue(r).value.rest && ParseValue(r).value.value == Means(v)
    decreases |r|, 2
  {
    hide *;
    ArrayParts(r);
    var gap := SkippedSpace(r[1..]);
    var s := SkipSpace(r[1..]);
    FirstApart(r);
    FirstApart(s);
    if s[0] == 93 {
      v := EmptyOf(91, gap);
      EmptyRegroup(r[0], gap, s[0], s[1..]);
    } else {
      var es := ReadIsElements(gap, s);
      v := ListOf(es);
      Assoc([91], ElementsText(es), ParseItems(s).value.rest);
    }
  }

  lemma ListOf(es: seq<Element>) returns (v: Syntax)
    requires es != [] && forall i :: 0 <= i < |es| ==> ProperElement(es[i])
    ensures Proper(v) && TextOf(v) == [91] + ElementsText(es) && Means(v) == Arr(ElementsMean(es))
  {
    hide ElementsText, ElementsMean, ProperElement;
    v := Bracketed(es, []);
  }

  lemma {:induction false} ReadIsElements(gap: seq<byte>, s: seq<byte>) returns (es: seq<Element>)
    requires Space(gap) && ParseItems(s).Some?
    ensures es != [] && forall i :: 0 <= i < |es| ==> ProperElement(es[i])
    ensures gap + s == ElementsText(es) + ParseItems(s).value.rest && ElementsMean(es) == ParseItems(s).value.items
    decreases |s|, 4
  {
    hide *;
    ItemsParts(s);
    var v := ReadIsValue(s);
    var after, rest := ParseValue(s).value.rest, ParseItems(s).value.rest;
    var space := SkippedSpace(after);
    var t := SkipSpace(after);
    FirstApart(t);
    var e := Element(gap, v, space);
    if t[0] == 93 {
      es := OneElement(e);
      ElementRead(e, [93] + rest);
      Assoc(ElementText(e), [93], rest);
    } else {
      var next := SkippedSpace(t[1..]);
      var more := ReadIsElements(next, SkipSpace(t[1..]));
      es := MoreElements(e, more);
      ElementRead(e, [44] + (ElementsText(more) + rest));
      MoreRegroup(ElementText(e), [44], ElementsText(more), rest);
    }
  }

  lemma ElementRead(e: Element, tail: seq<byte>)
    ensures e.before + (TextOf(e.value) + (e.after + tail)) == ElementText(e) + tail
  {
    hide TextOf;
    Assoc(TextOf(e.value), e.after, tail);
    Assoc(e.before, TextOf(e.value) + e.after, tail);
  }

  lemma MoreRegroup(a: seq<byte>, b: seq<byte>, c: seq<byte>, d: seq<byte>)
    ensures a + (b + (c + d)) == (a + (b + c)) + d
  {
  }

  lemma OneElement(e: Element) returns (es: seq<Element>)
    requires Space(e.before) && Space(e.after) && Proper(e.value)
    ensures es == [e] && ProperElement(es[0]) && ElementsMean(es) == [Means(e.value)]
    ensures ElementsText(es) == ElementText(e) + [93]
  {
    hide Space, Proper, Means, ElementText;
    es := [e];
    assert es[1..] == [] && ElementsMean([]) == [];
  }

  lemma MoreElements(e: Element, more: seq<Element>) returns (es: seq<Element>)
    requires Space(e.before) && Space(e.after) && Proper(e.value)
    requires more != [] && forall i :: 0 <= i < |more| ==> ProperElement(more[i])
    ensures es != [] && forall i :: 0 <= i < |es| ==> ProperElement(es[i])
    ensures ElementsMean(es) == [Means(e.value)] + ElementsMean(more)
    ensures ElementsText(es) == ElementText(e) + ([44] + ElementsText(more))
  {
    assert ProperElement(e);
    hide Space, Proper, Means, ElementText, ProperElement;
    es := [e] + more;
    assert es[1..] == more;
  }

  lemma {:induction false} ReadIsRecord(r: seq<byte>) returns (v: Syntax)
    requires ParseValue(r).Some? && r[0] == 123
    ensures Proper(v) && r == TextOf(v) + ParseValue(r).value.rest && ParseValue(r).value.value == Means(v)
    decreases |r|, 2
  {
    hide *;
    ObjectParts(r);
    var gap := SkippedSpace(r[1..]);
    var s := SkipSpace(r[1..]);
    FirstApart(r);
    FirstApart(s);
    if s[0] == 125 {
      v := EmptyOf(123, gap);
      EmptyRegroup(r[0], gap, s[0], s[1..]);
    } else {
      var fs := ReadIsFields(gap, s);
      v := RecordOf(fs);
      Assoc([123], FieldsText(fs), ParseMembers(s).value.rest);
    }
  }

  lemma RecordOf(fs: seq<Field>) returns (v: Syntax)
    requires fs != [] && forall i :: 0 <= i < |fs| ==> ProperField(fs[i])
    ensures Proper(v) && TextOf(v) == [123] + FieldsText(fs) && Means(v) == Obj(FieldsMean(fs))
  {
    hide FieldsText, FieldsMean, ProperField;
    v := Braced(fs, []);
  }

  lemma QuotedRegroup(chars: seq<byte>, after: seq<byte>)
    ensures [34] + (chars + ([34] + after)) == ([34] + chars + [34]) + after
  {
  }

  /** A key as it is read, with the space around its colon. */
  lemma ReadIsKey(s: seq<byte>) returns (ps: seq<Piece>, mid: seq<byte>, colon: seq<byte>)
    requires ParseKey(s).Some?
    ensures AllGood(ps) && Space(mid) && Space(colon) && PiecesMean(ps) == ParseKey(s).value.text
    ensures s == ([34] + PiecesText(ps) + [34]) + (mid + ([58] + (colon + ParseKey(s).value.rest)))
  {
    hide *;
    KeyParts(s);
    ps := ReadIsString(s[1..]);
    var after := ParseChars(s[1..]).value.rest;
    mid := SkippedSpace(after);
    var t := SkipSpace(after);
    colon := SkippedSpace(t[1..]);
    FirstApart(s);
    FirstApart(t);
    QuotedRegroup(PiecesText(ps), after);
  }

  lemma {:induction false} ReadIsFields(gap: seq<byte>, s: seq<byte>) returns (fs: seq<Field>)
    requires Space(gap) && ParseMembers(s).Some?
    ensures fs != [] && forall i :: 0 <= i < |fs| ==> ProperField(fs[i])
    ensures gap + s == FieldsText(fs) + ParseMembers(s).value.rest && FieldsMean(fs) == ParseMembers(s).value.members
    decreases |s|, 4
  {
    hide *;
    MembersParts(s);
    var ps, mid, colon := ReadIsKey(s);
    var k, rest := ParseKey(s).value, ParseMembers(s).value.rest;
    var v := ReadIsValue(k.rest);
    var after := ParseValue(k.rest).value.rest;
    var space := SkippedSpace(after);
    var t := SkipSpace(after);
    FirstApart(t);
    var f := Field(gap, ps, mid, colon, v, space);
    if t[0] == 125 {
      fs := OneField(f);
      FieldRead(f, s, [125] + rest);
      Assoc(FieldText(f), [125], rest);
    } else {
      var next := SkippedSpace(t[1..]);
      var more := ReadIsFields(next, SkipSpace(t[1..]));
      fs := MoreFields(f, more);
      FieldRead(f, s, [44] + (FieldsText(more) + rest));
      MoreRegroup(FieldText(f), [44], FieldsText(more), rest);
    }
  }

  lemma FieldRead(f: Field, s: seq<byte>, tail: seq<byte>)
    requires s == ([34] + PiecesText(f.key) + [34])
                  + (f.mid + ([58] + (f.colon + (TextOf(f.value) + (f.after + tail)))))
    ensures f.before + s == FieldText(f) + tail
  {
    hide TextOf, PiecesText;
    FieldRegroup(f.before, [34] + PiecesText(f.key) + [34], f.mid, f.colon, TextOf(f.value), f.after, tail);
  }

  lemma OneField(f: Field) returns (fs: seq<Field>)
    requires Space(f.before) && Space(f.mid) && Space(f.colon) && Space(f.after) && AllGood(f.key) && Proper(f.value)
    ensures fs == [f] && ProperField(fs[0]) && FieldsMean(fs) == [Member(PiecesMean(f.key), Means(f.value))]
    ensures FieldsText(fs) == FieldText(f) + [125]
  {
    hide Space, Proper, Means, FieldText, AllGood, PiecesMean;
    fs := [f];
    assert fs[1..] == [] && FieldsMean([]) == [];
  }

  lemma MoreFields(f: Field, more: seq<Field>) returns (fs: seq<Field>)
    requires Space(f.before) && Space(f.mid) && Space(f.colon) && Space(f.after) && AllGood(f.key) && Proper(f.value)
    requires more != [] && forall i :: 0 <= i < |more| ==> ProperField(more[i])
    ensures fs != [] && forall i :: 0 <= i < |fs| ==> ProperField(fs[i])
    ensures FieldsMean(fs) == [Member(PiecesMean(f.key), Means(f.value))] + FieldsMean(more)
    ensures FieldsText(fs) == FieldText(f) + ([44] + FieldsText(more))
  {
    assert ProperField(f);
    hide Space, Proper, Means, FieldText, ProperField, AllGood, PiecesMean;
    fs := [f] + more;
    assert fs[1..] == more;
  }

  /** The text "\uD83D\uDE00" is the string of the character U+1F600. */
  lemma PairExample()
    ensures Decode([34, 92, 117, 68, 56, 51, 68] + [92, 117, 68, 69, 48, 48, 34]) == Some(Str([0xF0, 0x9F, 0x98, 0x80]))
  {
    var h, l := [68, 56, 51, 68], [68, 69, 48, 48];
    var ps := [Pair(h, l)];
    assert Number(h) == 0xD83D && Number(l) == 0xDE00 && Good(Pair(h, l));
    assert WriteChar(0x1F600) == [0xF0, 0x9F, 0x98, 0x80];
    assert PieceMeans(Pair(h, l)) == [0xF0, 0x9F, 0x98, 0x80];
    assert ps[1..] == [] && PiecesMean(ps) == [0xF0, 0x9F, 0x98, 0x80] && PiecesText(ps) == PieceText(Pair(h, l));
    hide *;
    QuotedIsDecoded(ps);
    ExampleText(h, l);
  }

  lemma QuotedIsDecoded(ps: seq<Piece>)
    requires AllGood(ps)
    ensures Decode([34] + PiecesText(ps) + [34]) == Some(Str(PiecesMean(ps)))
  {
    hide *;
    QuotedIs(ps);
    TextIsDecoded([], Quoted(ps), []);
    NothingAround([34] + PiecesText(ps) + [34]);
  }

  lemma QuotedIs(ps: seq<Piece>)
    requires AllGood(ps)
    ensures Space([]) && Proper(Quoted(ps)) && Means(Quoted(ps)) == Str(PiecesMean(ps))
    ensures TextOf(Quoted(ps)) == [34] + PiecesText(ps) + [34]
  {
  }

  lemma NothingAround(s: seq<byte>)
    ensures [] + s + [] == s
  {
  }

  lemma ExampleText(h: seq<byte>, l: seq<byte>)
    requires h == [68, 56, 51, 68] && l == [68, 69, 48, 48]
    ensures [34] + PieceText(Pair(h, l)) + [34] == [34, 92, 117, 68, 56, 51, 68] + [92, 117, 68, 69, 48, 48, 34]
  {
    assert [34] + ([92, 117] + h) == [34, 92, 117, 68, 56, 51, 68];
    assert [92, 117] + l + [34] == [92, 117, 68, 69, 48, 48, 34];
    Assoc([34] + ([92, 117] + h), [92, 117] + l, [34]);
  }

  /** Whatever json_decode reads is a text of the grammar, with space around it, and has the meaning it gives it. */
  lemma DecodedIsText(text: seq<byte>) returns (before: seq<byte>, v: Syntax, after: seq<byte>)
    requires Decode(text).Some?
    ensures Space(before) && Proper(v) && Space(after)
    ensures text == before + TextOf(v) + after && Decode(text) == Some(Means(v))
  {
    before := SkippedSpace(text);
    v := ReadIsValue(SkipSpace(text));
    after := SkippedSpace(ParseValue(SkipSpace(text)).value.rest);
    hide ParseValue, SkipSpace, Proper, TextOf, Means, Space;
    assert after + [] == after;
    Assoc(before, TextOf(v), after);
  }
}
