/**
 * The text that json_encode and json_stringify write, character by character: where commas, line ends and
 * the space of each level go, and how a string is escaped.
 */
module JsonLayout {
  import opened Bytes
  import opened Utf8
  import opened JsonStrings
  import opened JsonText
  import N = JsonNumbers

  /** The parts with sep between each two of them. */
  function Joined(parts: seq<seq<byte>>, sep: seq<byte>): seq<byte> {
    if parts == [] then [] else if |parts| == 1 then parts[0] else parts[0] + sep + Joined(parts[1..], sep)
  }

  lemma JoinedStep(first: seq<byte>, more: seq<seq<byte>>, sep: seq<byte>)
    ensures Joined([first] + more, sep) == first + (if more == [] then [] else sep + Joined(more, sep))
  {
    assert ([first] + more)[1..] == more;
  }

  // ---------------------------------------------------------------- on one line

  /** Section 2 of RFC 8259 without any space: the elements between commas. */
  function CompactItems(items: seq<Json>): (parts: seq<seq<byte>>)
    ensures |parts| == |items|
    ensures forall i :: 0 <= i < |items| ==> parts[i] == Emit(items[i], Compact, 0)
  {
    seq(|items|, i requires 0 <= i < |items| => Emit(items[i], Compact, 0))
  }

  function CompactMember(m: Member): seq<byte> { EmitString(m.key) + [58] + Emit(m.value, Compact, 0) }

  function CompactMembers(members: seq<Member>): (parts: seq<seq<byte>>)
    ensures |parts| == |members|
    ensures forall i :: 0 <= i < |members| ==> parts[i] == CompactMember(members[i])
  {
    seq(|members|, i requires 0 <= i < |members| => CompactMember(members[i]))
  }

  /** The level says nothing on one line. */
  lemma {:induction false} LevelIsNothing(j: Json, level: nat)
    ensures Emit(j, Compact, level) == Emit(j, Compact, 0)
    decreases j, 1
  {
    match j
    case Arr(items) => if items != [] { ItemsAnyLevel(items, level + 1); }
    case Obj(members) => if members != [] { MembersAnyLevel(members, level + 1); }
    case _ =>
  }

  lemma {:induction false} ItemsAnyLevel(items: seq<Json>, level: nat)
    requires items != []
    ensures EmitItems(items, Compact, level) == EmitItems(items, Compact, 1) == Joined(CompactItems(items), [44])
    decreases items, 0
  {
    hide Emit;
    LevelIsNothing(items[0], level);
    LevelIsNothing(items[0], 1);
    ItemsSplit(items);
    JoinedStep(Emit(items[0], Compact, 0), CompactItems(items[1..]), [44]);
    if |items| > 1 {
      ItemsAnyLevel(items[1..], level);
    }
  }

  lemma ItemsSplit(items: seq<Json>)
    requires items != []
    ensures CompactItems(items) == [Emit(items[0], Compact, 0)] + CompactItems(items[1..])
  {
    hide Emit;
  }

  lemma {:induction false} MembersAnyLevel(members: seq<Member>, level: nat)
    requires members != []
    ensures EmitMembers(members, Compact, level) == EmitMembers(members, Compact, 1)
            == Joined(CompactMembers(members), [44])
    decreases members, 0
  {
    hide Emit, EmitString;
    LevelIsNothing(members[0].value, level);
    LevelIsNothing(members[0].value, 1);
    MembersSplit(members);
    JoinedStep(CompactMember(members[0]), CompactMembers(members[1..]), [44]);
    if |members| > 1 {
      MembersAnyLevel(members[1..], level);
    }
  }

  lemma MembersSplit(members: seq<Member>)
    requires members != []
    ensures CompactMembers(members) == [CompactMember(members[0])] + CompactMembers(members[1..])
  {
    hide Emit, EmitString;
  }

  /** json_encode: brackets around the parts, commas between them, a colon behind a key, and nothing else. */
  lemma CompactLayout(items: seq<Json>, members: seq<Member>)
    ensures Emit(Arr(items), Compact, 0) == [91] + Joined(CompactItems(items), [44]) + [93]
    ensures Emit(Obj(members), Compact, 0) == [123] + Joined(CompactMembers(members), [44]) + [125]
  {
    CompactArray(items);
    CompactObject(members);
    hide *;
  }

  lemma CompactArray(items: seq<Json>)
    ensures Emit(Arr(items), Compact, 0) == [91] + Joined(CompactItems(items), [44]) + [93]
  {
    if items != [] {
      ItemsAnyLevel(items, 1);
      hide EmitItems, CompactItems;
    }
  }

  lemma CompactObject(members: seq<Member>)
    ensures Emit(Obj(members), Compact, 0) == [123] + Joined(CompactMembers(members), [44]) + [125]
  {
    if members != [] {
      MembersAnyLevel(members, 1);
      hide EmitMembers, CompactMembers;
    }
  }

  // ---------------------------------------------------------------- on many lines

  /** The space of n levels. */
  function Indent(space: seq<byte>, n: nat): seq<byte> { Concat(seq(n, _ => space)) }

  lemma {:induction false} IndentIsRepeat(space: seq<byte>, n: nat)
    ensures Repeat(space, n) == Indent(space, n)
  {
    if n > 0 {
      IndentIsRepeat(space, n - 1);
      assert seq(n, _ => space) == [space] + seq(n - 1, _ => space);
      ConcatFirst(space, seq(n - 1, _ => space));
    }
  }

  /** One element a line. */
  function ItemLines(items: seq<Json>, space: seq<byte>, level: nat): (parts: seq<seq<byte>>)
    ensures |parts| == |items|
    ensures forall i :: 0 <= i < |items| ==> parts[i] == Indent(space, level) + Emit(items[i], Indented(space), level)
  {
    seq(|items|, i requires 0 <= i < |items| => Indent(space, level) + Emit(items[i], Indented(space), level))
  }

  function MemberLine(m: Member, space: seq<byte>, level: nat): seq<byte> {
    Indent(space, level) + (EmitString(m.key) + [58, 32] + Emit(m.value, Indented(space), level))
  }

  /** One member a line, and a space behind the colon. */
  function MemberLines(members: seq<Member>, space: seq<byte>, level: nat): (parts: seq<seq<byte>>)
    ensures |parts| == |members|
    ensures forall i :: 0 <= i < |members| ==> parts[i] == MemberLine(members[i], space, level)
  {
    seq(|members|, i requires 0 <= i < |members| => MemberLine(members[i], space, level))
  }

  lemma {:induction false} ItemsAreLines(items: seq<Json>, space: seq<byte>, level: nat)
    requires items != []
    ensures Indent(space, level) + EmitItems(items, Indented(space), level)
            == Joined(ItemLines(items, space, level), [44, 10])
    decreases |items|
  {
    hide Emit, Indent;
    var first, more := Emit(items[0], Indented(space), level), ItemLines(items[1..], space, level);
    assert ItemLines(items, space, level) == [Indent(space, level) + first] + more;
    JoinedStep(Indent(space, level) + first, more, [44, 10]);
    if |items| > 1 {
      ItemsAreLines(items[1..], space, level);
      IndentIsRepeat(space, level);
      hide ItemLines, Joined, EmitItems, Repeat;
      NextLine(Indent(space, level), first, EmitItems(items[1..], Indented(space), level));
      SplitItems(items, space, level);
    } else {
      LastItem(items, space, level);
      hide EmitItems;
      assert Indent(space, level) + first + [] == Indent(space, level) + first;
    }
  }

  lemma SplitItems(items: seq<Json>, space: seq<byte>, level: nat)
    requires |items| > 1
    ensures EmitItems(items, Indented(space), level)
            == Emit(items[0], Indented(space), level)
               + ([44] + ([10] + Repeat(space, level)) + EmitItems(items[1..], Indented(space), level))
  {
    hide Emit, Repeat;
  }

  lemma LastItem(items: seq<Json>, space: seq<byte>, level: nat)
    requires |items| == 1
    ensures EmitItems(items, Indented(space), level) == Emit(items[0], Indented(space), level)
  {
    hide Emit;
  }

  lemma NextLine(indent: seq<byte>, first: seq<byte>, more: seq<byte>)
    ensures indent + (first + ([44] + ([10] + indent) + more)) == indent + first + ([44, 10] + (indent + more))
  {
    assert [44] + ([10] + indent) == [44, 10] + indent;
  }

  lemma {:induction false} MembersAreLines(members: seq<Member>, space: seq<byte>, level: nat)
    requires members != []
    ensures Indent(space, level) + EmitMembers(members, Indented(space), level)
            == Joined(MemberLines(members, space, level), [44, 10])
    decreases |members|
  {
    hide Emit, EmitString, Indent;
    var m := members[0];
    var first := EmitString(m.key) + [58, 32] + Emit(m.value, Indented(space), level);
    var more := MemberLines(members[1..], space, level);
    assert MemberLines(members, space, level) == [Indent(space, level) + first] + more;
    JoinedStep(Indent(space, level) + first, more, [44, 10]);
    if |members| > 1 {
      MembersAreLines(members[1..], space, level);
      IndentIsRepeat(space, level);
      hide MemberLines, Joined, EmitMembers, Repeat;
      NextLine(Indent(space, level), first, EmitMembers(members[1..], Indented(space), level));
      SplitMembers(members, space, level);
    } else {
      LastMember(members, space, level);
      hide EmitMembers;
      assert Indent(space, level) + first + [] == Indent(space, level) + first;
    }
  }

  lemma SplitMembers(members: seq<Member>, space: seq<byte>, level: nat)
    requires |members| > 1
    ensures EmitMembers(members, Indented(space), level)
            == EmitString(members[0].key) + [58, 32] + Emit(members[0].value, Indented(space), level)
               + ([44] + ([10] + Repeat(space, level)) + EmitMembers(members[1..], Indented(space), level))
  {
    hide Emit, EmitString, Repeat;
  }

  lemma LastMember(members: seq<Member>, space: seq<byte>, level: nat)
    requires |members| == 1
    ensures EmitMembers(members, Indented(space), level)
            == EmitString(members[0].key) + [58, 32] + Emit(members[0].value, Indented(space), level)
  {
    hide Emit, EmitString;
  }

  /**
   * json_stringify: a line end behind the opening bracket and behind each comma, the space of the next
   * level in front of each part, and the closing bracket on a line of its own at its level.
   */
  lemma IndentedLayout(items: seq<Json>, members: seq<Member>, space: seq<byte>, level: nat)
    ensures Emit(Arr(items), Indented(space), level)
            == if items == [] then [91, 93]
               else [91, 10] + Joined(ItemLines(items, space, level + 1), [44, 10]) + [10] + Indent(space, level) + [93]
    ensures Emit(Obj(members), Indented(space), level)
            == if members == [] then [123, 125]
               else [123, 10] + Joined(MemberLines(members, space, level + 1), [44, 10]) + [10] + Indent(space, level)
                    + [125]
  {
    if items != [] {
      IndentedArray(items, space, level);
    }
    if members != [] {
      IndentedObject(members, space, level);
    }
    EmptyLayout(Indented(space), level);
    hide *;
  }

  lemma EmptyLayout(style: Style, level: nat)
    ensures Emit(Arr([]), style, level) == [91, 93] && Emit(Obj([]), style, level) == [123, 125]
  {
  }

  lemma IndentedArray(items: seq<Json>, space: seq<byte>, level: nat)
    requires items != []
    ensures Emit(Arr(items), Indented(space), level)
            == [91, 10] + Joined(ItemLines(items, space, level + 1), [44, 10]) + [10] + Indent(space, level) + [93]
  {
    hide EmitItems, ItemLines, Joined, Indent, Repeat;
    IndentIsRepeat(space, level);
    IndentIsRepeat(space, level + 1);
    ItemsAreLines(items, space, level + 1);
    Bracketed(91, Indent(space, level + 1), EmitItems(items, Indented(space), level + 1), Indent(space, level), 93);
  }

  lemma IndentedObject(members: seq<Member>, space: seq<byte>, level: nat)
    requires members != []
    ensures Emit(Obj(members), Indented(space), level)
            == [123, 10] + Joined(MemberLines(members, space, level + 1), [44, 10]) + [10] + Indent(space, level)
               + [125]
  {
    hide EmitMembers, MemberLines, Joined, Indent, Repeat;
    IndentIsRepeat(space, level);
    IndentIsRepeat(space, level + 1);
    MembersAreLines(members, space, level + 1);
    Bracketed(123, Indent(space, level + 1), EmitMembers(members, Indented(space), level + 1), Indent(space, level),
      125);
  }

  lemma Bracketed(opening: byte, inner: seq<byte>, body: seq<byte>, outer: seq<byte>, closing: byte)
    ensures [opening] + ([10] + inner) + body + ([10] + outer) + [closing]
         == [opening, 10] + (inner + body) + [10] + outer + [closing]
  {
    assert [opening] + ([10] + inner) == [opening, 10] + inner;
    Assoc([opening, 10], inner, body);
    Assoc([opening, 10] + (inner + body), [10], outer);
  }

  // ---------------------------------------------------------------- scalars and characters

  lemma ScalarLayout(style: Style, level: nat, lexeme: seq<byte>)
    ensures Emit(Null, style, level) == [110, 117, 108, 108]
    ensures Emit(Bool(true), style, level) == [116, 114, 117, 101]
    ensures Emit(Bool(false), style, level) == [102, 97, 108, 115, 101]
    ensures Emit(Num(lexeme), style, level) == if N.Valid(lexeme) then lexeme else [110, 117, 108, 108]
  {
    hide N.Valid;
  }

  /** The digit d in upper case. */
  function UpperDigit(d: nat): byte
    requires d < 16
  {
    "0123456789ABCDEF"[d] as int
  }

  /** A quotation mark and a backslash get a backslash in front. */
  lemma EscapesOfMarks()
    ensures QuoteChar([34]) == [92, 34] && QuoteChar([92]) == [92, 92]
  {
  }

  /** Five control characters have letters, the others below U+001F four digits. */
  lemma EscapesOfControls(c: byte)
    requires c < 0x1F
    ensures QuoteChar([c]) == if c == 8 then [92, 98] else if c == 9 then [92, 116] else if c == 10 then [92, 110]
                              else if c == 12 then [92, 102] else if c == 13 then [92, 114]
                              else [92, 117] + [48, 48, UpperDigit(c / 16), UpperDigit(c % 16)]
  {
    HexOfSmall(c);
    hide WriteHex16;
  }

  lemma HexOfSmall(c: byte)
    requires c < 0x1F
    ensures IsChar([c]) && WriteHex16(ReadChar([c])) == [48, 48, UpperDigit(c / 16), UpperDigit(c % 16)]
  {
    HexValueIsPlace(48, c / 16);
    HexValueIsPlace(48, c % 16);
    assert ReadChar([c]) == c;
  }

  /** Every other character stands for itself. */
  lemma OthersAreRaw(c: seq<byte>)
    requires IsChar(c) && c[0] >= 0x1F && c != [34] && c != [92]
    ensures QuoteChar(c) == c
  {
  }

  /** A string is its characters in order between quotation marks; what is no character becomes U+FFFD. */
  lemma StringLayout(c: seq<byte>, b: byte, s: seq<byte>)
    requires IsChar(c)
    ensures EmitString(s) == [34] + EmitChars(s) + [34] && EmitChars([]) == []
    ensures EmitChars(c + s) == QuoteChar(c) + EmitChars(s)
    ensures CharLen([b] + s) == 0 ==> EmitChars([b] + s) == [0xEF, 0xBF, 0xBD] + EmitChars(s)
  {
    CharLenOfChar(c, s);
    assert (c + s)[|c|..] == s && (c + s)[..|c|] == c;
    assert ([b] + s)[1..] == s;
    hide QuoteChar, CharLen;
  }
}
