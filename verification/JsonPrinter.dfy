/**
 * The compact and the indented printer of json.c, walking the linked nodes and writing through
 * the string buffer. The ghost parameters say which value a node stands for.
 */
module JsonPrinter {
  import opened Bytes
  import opened Utf8
  import opened JsonStrings
  import opened JsonText
  import opened StringBuffer
  import opened JsonTree
  import opened JsonLinked
  import P = JsonParser
  import N = JsonNumbers

  /** What the printers may be given: C strings of well-formed UTF-8, and printed numbers. */
  predicate Printable(j: Json) {
    match j
    case Str(text) => CleanText(text)
    case Num(lexeme) => 0 !in lexeme
    case Arr(items) => forall i :: 0 <= i < |items| ==> Printable(items[i])
    case Obj(members) =>
      forall i :: 0 <= i < |members| ==> CleanText(members[i].key) && Printable(members[i].value)
    case _ => true
  }

  /** number_is_valid. */
  method NumberIsValid(lexeme: seq<byte>) returns (ok: bool)
    requires 0 !in lexeme
    ensures ok == N.Valid(lexeme)
  {
    var z := lexeme + [0];
    assert Rest(z, 0) == lexeme;
    var end := P.ParseNumberAt(z, 0);
    return end.Some? && z[end.value] == 0;
  }

  /** One turn of the loop of emit_string: at most six octets are written at b. */
  method EmitChar(z: seq<byte>, s: nat, mem: array<byte>, b: nat) returns (next: nat, end: nat)
    requires CString(z) && s < |z| - 1 && CharLen(Rest(z, s)) > 0 && b + 6 <= mem.Length
    modifies mem
    ensures next == s + CharLen(Rest(z, s)) < |z|
    ensures b <= end <= b + 6 && mem[..end] == old(mem[..b]) + QuoteChar(Rest(z, s)[..CharLen(Rest(z, s))])
  {
    ghost var c := Rest(z, s)[..CharLen(Rest(z, s))];
    P.RestEnd(z, s);
    assert c[0] == z[s];
    var first := z[s];
    if LetterOf(first).Some? {
      assert |c| == 1 && c == [first];
      next := s + 1;
      end := PutAt(mem, b, [BACKSLASH, LetterOf(first).value]);
    } else {
      var len := ValidateCz(z, s);
      next := s + len;
      assert z[s..s + len] == c;
      if first < 0x1F {
        assert |c| == 1;
        end := PutAt(mem, b, [BACKSLASH, 117]);
        end := PutAt(mem, end, WriteHex16(ReadChar(z[s..s + len])));
        assert mem[..end] == old(mem[..b]) + ([BACKSLASH, 117] + WriteHex16(ReadChar(c)));
      } else {
        end := PutAt(mem, b, z[s..s + len]);
      }
    }
  }

  /** The cases of the switch in emit_string. */
  function LetterOf(c: byte): Option<byte> {
    if c == QUOTE || c == BACKSLASH then Some(c)
    else if c == 8 then Some(98)
    else if c == 12 then Some(102)
    else if c == 10 then Some(110)
    else if c == 13 then Some(114)
    else if c == 9 then Some(116)
    else None
  }

  /** What is still to be written of a text at position s. */
  ghost function CharsLeft(z: seq<byte>, s: nat): seq<byte>
    requires s < |z|
  {
    EmitChars(Rest(z, s))
  }

  lemma CharsLeftStep(z: seq<byte>, s: nat)
    requires CString(z) && s < |z| && z[s] != 0 && IsText(Rest(z, s))
    ensures var n := CharLen(Rest(z, s));
            && n > 0 && s + n < |z| && IsText(Rest(z, s + n))
            && CharsLeft(z, s) == QuoteChar(Rest(z, s)[..n]) + CharsLeft(z, s + n)
  {
    P.RestEnd(z, s);
    P.RestAt(z, s, CharLen(Rest(z, s)));
  }

  lemma CharsLeftEnd(z: seq<byte>, s: nat)
    requires CString(z) && s < |z| && z[s] == 0
    ensures CharsLeft(z, s) == []
  {
    P.RestEnd(z, s);
  }

  /** emit_string: each reservation of 14 octets covers a character and both quotation marks. */
  method EmitStringTo(sb: SB, text: seq<byte>)
    requires sb.Valid() && CleanText(text)
    modifies sb, sb.mem
    ensures sb.Valid() && (fresh(sb.mem) || sb.mem == old(sb.mem))
    ensures sb.Contents() == old(sb.Contents()) + EmitString(text)
  {
    hide *;
    var z := text + [0];
    TextAtStart(text);
    ghost var base := sb.Contents();
    var b := OpenQuote(sb);
    b := EmitCharsTo(sb, z, b);
    QuotesAround(base, text);
    PutQuote(sb, b);
  }

  /** The quotation mark in front, and room for the first character. */
  method OpenQuote(sb: SB) returns (b: nat)
    requires sb.Valid()
    modifies sb, sb.mem
    ensures sb.Valid() && (fresh(sb.mem) || sb.mem == old(sb.mem)) && b + 13 <= sb.end
    ensures sb.mem[..b] == old(sb.Contents()) + [QUOTE]
  {
    sb.Need(14);
    b := sb.cur;
    sb.mem[b] := QUOTE;
    b := b + 1;
  }

  /** The loop of emit_string: b is where the buffer has been filled to. */
  method EmitCharsTo(sb: SB, z: seq<byte>, start: nat) returns (b: nat)
    requires CString(z) && 0 < |z| && IsText(Rest(z, 0)) && sb.Valid() && start + 13 <= sb.end
    modifies sb, sb.mem
    ensures sb.Valid() && (fresh(sb.mem) || sb.mem == old(sb.mem)) && b + 13 <= sb.end
    ensures sb.mem[..b] == old(sb.mem[..start]) + CharsLeft(z, 0)
  {
    hide CharsLeft, QuoteChar, IsText, CharLen;
    ghost var goal := sb.mem[..start] + CharsLeft(z, 0);
    b := start;
    var s := 0;
    while z[s] != 0
      invariant s < |z| && sb.Valid() && b + 13 <= sb.end
      invariant fresh(sb.mem) || sb.mem == old(sb.mem)
      invariant IsText(Rest(z, s)) && goal == sb.mem[..b] + CharsLeft(z, s)
      decreases |z| - s
    {
      ghost var done := sb.mem[..b];
      CharsLeftStep(z, s);
      Assoc(done, QuoteChar(Rest(z, s)[..CharLen(Rest(z, s))]), CharsLeft(z, s + CharLen(Rest(z, s))));
      s, b := EmitChar(z, s, sb.mem, b);
      sb.cur := b;
      sb.Need(14);
    }
    CharsLeftEnd(z, s);
    assert goal == sb.mem[..b];
  }

  /** The quotation mark at the end, for which there is room. */
  method PutQuote(sb: SB, b: nat)
    requires sb.Valid() && b < sb.end
    modifies sb`cur, sb.mem
    ensures sb.Valid() && sb.Contents() == old(sb.mem[..b]) + [QUOTE]
  {
    sb.mem[b] := QUOTE;
    sb.cur := b + 1;
  }

  lemma QuotesAround(base: seq<byte>, text: seq<byte>)
    requires CleanText(text)
    ensures (base + [QUOTE] + EmitChars(text)) + [QUOTE] == base + EmitString(text)
  {
    hide EmitChars;
  }

  lemma TextAtStart(text: seq<byte>)
    requires CleanText(text)
    ensures CString(text + [0])
    ensures CharsLeft(text + [0], 0) == EmitChars(text) && IsText(Rest(text + [0], 0))
  {
    assert Rest(text + [0], 0) == text;
  }

  lemma {:induction false} RepeatLast(space: seq<byte>, n: nat)
    requires n > 0
    ensures Repeat(space, n) == Repeat(space, n - 1) + space
  {
    if n > 1 {
      RepeatLast(space, n - 1);
      assert space + (Repeat(space, n - 2) + space) == space + Repeat(space, n - 2) + space;
    } else {
      assert space + [] == [] + space;
    }
  }

  method Indent(sb: SB, space: seq<byte>, n: nat)
    requires sb.Valid()
    modifies sb, sb.mem
    ensures sb.Valid() && (fresh(sb.mem) || sb.mem == old(sb.mem))
    ensures sb.Contents() == old(sb.Contents()) + Repeat(space, n)
  {
    for i := 0 to n
      invariant sb.Valid() && (fresh(sb.mem) || sb.mem == old(sb.mem))
      invariant sb.Contents() == old(sb.Contents()) + Repeat(space, i)
    {
      sb.Put(space);
      RepeatLast(space, i + 1);
      assert old(sb.Contents()) + Repeat(space, i) + space == old(sb.Contents()) + (Repeat(space, i) + space);
    }
  }

  /** The list starts at head. */
  lemma HeadOf(mem: Mem, kids: Kids, n: JsonNode)
    requires Current(mem) && AllLinked(mem, kids) && n in kids
    ensures n.head == NodeAt(kids[n], 0)
  {
    assert Linked(mem, n, kids[n]) && n.Fields() == mem[n];
  }

  /** The i-th child, where its next pointer leads, and its key. */
  lemma ChildAt(mem: Mem, kids: Kids, n: JsonNode, i: nat)
    requires Current(mem) && AllLinked(mem, kids) && n in kids && i < |kids[n]|
    ensures var c := kids[n][i]; c.next == NodeAt(kids[n], i + 1) && c in KeyMap(mem) && KeyMap(mem)[c] == c.key
  {
    NeighboursListed(mem, kids, kids[n][i], n, i);
    assert kids[n][i].Fields() == mem[kids[n][i]];
  }

  lemma ItemAt(kids: Kids, keys: Keys, n: JsonNode, items: seq<Json>, i: nat)
    requires Shows(kids, keys, n, Arr(items)) && i < |items|
    ensures i < |kids[n]| && Shows(kids, keys, kids[n][i], items[i])
  {
  }

  lemma MemberAt(kids: Kids, keys: Keys, n: JsonNode, members: seq<Member>, i: nat)
    requires Shows(kids, keys, n, Obj(members)) && i < |members|
    ensures i < |kids[n]| && Shows(kids, keys, kids[n][i], members[i].value) && KeyIs(keys, kids[n][i], members[i].key)
  {
  }

  lemma ShownShape(kids: Kids, keys: Keys, n: JsonNode, j: Json)
    requires Shows(kids, keys, n, j)
    ensures n in kids
    ensures match n.tag
            case Leaf(v) => j == v && !j.Arr? && !j.Obj?
            case Array => j.Arr? && |kids[n]| == |j.items|
            case Object => j.Obj? && |kids[n]| == |j.members|
  {
  }

  /** emit_value and emit_value_indented. */
  method EmitValue(sb: SB, ghost mem: Mem, ghost kids: Kids, node: JsonNode, ghost j: Json, style: Style, level: nat)
    requires Current(mem) && AllLinked(mem, kids) && Shows(kids, KeyMap(mem), node, j) && sb.Valid() && Printable(j)
    modifies sb, sb.mem
    ensures sb.Valid() && (fresh(sb.mem) || sb.mem == old(sb.mem))
    ensures sb.Contents() == old(sb.Contents()) + Emit(j, style, level)
    decreases j, 2
  {
    ShownShape(kids, KeyMap(mem), node, j);
    hide Shows, AllLinked, Ranked, Ledger, StateOf, KeyMap, EmitItems, EmitMembers;
    match node.tag
    case Leaf(v) => EmitLeaf(sb, v, style, level);
    case Array =>
      if style.Compact? {
        EmitArray(sb, mem, kids, node, j.items, level);
      } else {
        EmitArrayIndented(sb, mem, kids, node, j.items, style.space, level);
      }
    case Object =>
      if style.Compact? {
        EmitObject(sb, mem, kids, node, j.members, level);
      } else {
        EmitObjectIndented(sb, mem, kids, node, j.members, style.space, level);
      }
  }

  /** The cases without children. */
  method EmitLeaf(sb: SB, j: Json, ghost style: Style, ghost level: nat)
    requires sb.Valid() && Printable(j) && !j.Arr? && !j.Obj?
    modifies sb, sb.mem
    ensures sb.Valid() && (fresh(sb.mem) || sb.mem == old(sb.mem))
    ensures sb.Contents() == old(sb.Contents()) + Emit(j, style, level)
  {
    match j
    case Null => sb.Put(NULL);
    case Bool(b) => sb.Put(if b then TRUE else FALSE);
    case Str(text) => EmitStringTo(sb, text);
    case Num(lexeme) =>
      var ok := NumberIsValid(lexeme);
      sb.Put(if ok then lexeme else NULL);
  }

  function Indentation(style: Style, n: nat): seq<byte> {
    if style.Compact? then [] else Repeat(style.space, n)
  }

  function LineEnd(style: Style): seq<byte> { if style.Compact? then [] else [10] }

  /** What is written behind an element or member. */
  function Separator(style: Style, more: bool): seq<byte> {
    if more then [COMMA] + LineEnd(style) else LineEnd(style)
  }

  lemma NewLineParts(style: Style, n: nat)
    ensures NewLine(style, n) == LineEnd(style) + Indentation(style, n)
  {
  }

  /** The end of a list, regrouped as it is written. */
  lemma LastShape(e: seq<byte>, line: seq<byte>, indent: seq<byte>, close: seq<byte>)
    ensures (e + []) + ((line + indent) + close) == e + (line + (indent + close))
  {
    assert e + [] == e;
    Assoc(line, indent, close);
  }

  /** An earlier element of a list, regrouped as it is written. */
  lemma MoreShape(e: seq<byte>, comma: seq<byte>, line: seq<byte>, indent: seq<byte>, rest: seq<byte>, end: seq<byte>)
    ensures (e + (comma + (line + indent) + rest)) + end == e + ((comma + line) + (indent + (rest + end)))
  {
    Assoc(e, comma + (line + indent) + rest, end);
    Assoc(comma, line, indent);
    Assoc(comma + (line + indent), rest, end);
    Assoc(comma + line, indent, rest + end);
  }

  // ---------------------------------------------------------------- arrays

  /** What is still to be written of an array in front of its i-th element. */
  ghost function ItemsLeft(items: seq<Json>, i: nat, style: Style, level: nat): seq<byte>
    requires i <= |items|
  {
    if i == |items| then Indentation(style, level) + [CLOSE_ARRAY]
    else
      Indentation(style, level + 1)
      + (EmitItems(items[i..], style, level + 1) + (NewLine(style, level) + [CLOSE_ARRAY]))
  }

  lemma ItemsLeftStart(items: seq<Json>, style: Style, level: nat)
    requires items != []
    ensures Emit(Arr(items), style, level) == ([OPEN_ARRAY] + LineEnd(style)) + ItemsLeft(items, 0, style, level)
  {
    NewLineParts(style, level + 1);
    assert items[0..] == items;
    hide EmitItems, NewLine, Indentation, LineEnd;
    var body, end := EmitItems(items, style, level + 1), NewLine(style, level) + [CLOSE_ARRAY];
    Assoc([OPEN_ARRAY], LineEnd(style), Indentation(style, level + 1));
    Assoc([OPEN_ARRAY] + NewLine(style, level + 1) + body, NewLine(style, level), [CLOSE_ARRAY]);
    Assoc([OPEN_ARRAY] + NewLine(style, level + 1), body, end);
    Assoc([OPEN_ARRAY] + LineEnd(style), Indentation(style, level + 1), body + end);
  }

  lemma ItemsLeftStep(items: seq<Json>, i: nat, style: Style, level: nat)
    requires i < |items|
    ensures ItemsLeft(items, i, style, level) ==
            Indentation(style, level + 1) + (Emit(items[i], style, level + 1) +
            (Separator(style, i + 1 < |items|) + ItemsLeft(items, i + 1, style, level)))
  {
    NewLineParts(style, level);
    NewLineParts(style, level + 1);
    assert items[i..][1..] == items[i + 1..];
    hide Emit, NewLine, Indentation, LineEnd;
    if i + 1 < |items| {
      MoreShape(Emit(items[i], style, level + 1), [COMMA], LineEnd(style), Indentation(style, level + 1),
                EmitItems(items[i + 1..], style, level + 1), NewLine(style, level) + [CLOSE_ARRAY]);
    } else {
      LastShape(Emit(items[i], style, level + 1), LineEnd(style), Indentation(style, level), [CLOSE_ARRAY]);
    }
  }

  /** emit_array. */
  method EmitArray(sb: SB, ghost mem: Mem, ghost kids: Kids, node: JsonNode, ghost items: seq<Json>, level: nat)
    requires Current(mem) && AllLinked(mem, kids) && Shows(kids, KeyMap(mem), node, Arr(items))
    requires sb.Valid() && forall i :: 0 <= i < |items| ==> Printable(items[i])
    modifies sb, sb.mem
    ensures sb.Valid() && (fresh(sb.mem) || sb.mem == old(sb.mem))
    ensures sb.Contents() == old(sb.Contents()) + Emit(Arr(items), Compact, level)
    decreases items, 2
  {
    CompactArrayOpening(items, level, sb.Contents());
    ShownShape(kids, KeyMap(mem), node, Arr(items));
    ghost var goal := sb.Contents() + Emit(Arr(items), Compact, level);
    hide *;
    sb.PutChar(OPEN_ARRAY);
    EmitArrayItems(sb, mem, kids, node, items, level, goal);
  }

  /** The loop of emit_array, and the closing bracket. */
  method EmitArrayItems(sb: SB, ghost mem: Mem, ghost kids: Kids, node: JsonNode, ghost items: seq<Json>, level: nat,
                     ghost goal: seq<byte>)
    requires Current(mem) && AllLinked(mem, kids) && Shows(kids, KeyMap(mem), node, Arr(items)) && node in kids
    requires |kids[node]| == |items| && (forall i :: 0 <= i < |items| ==> Printable(items[i]))
    requires sb.Valid() && goal == sb.Contents() + ItemsLeft(items, 0, Compact, level)
    modifies sb, sb.mem
    ensures sb.Valid() && (fresh(sb.mem) || sb.mem == old(sb.mem)) && sb.Contents() == goal
    decreases items, 1
  {
    hide ItemsLeft, Current, AllLinked, KeyMap, Shows, Printable, CleanText;
    HeadOf(mem, kids, node);
    var element := node.head;
    ghost var i := 0;
    while element != null
      invariant i <= |items| && element == NodeAt(kids[node], i)
      invariant sb.Valid() && (fresh(sb.mem) || sb.mem == old(sb.mem))
      invariant goal == sb.Contents() + ItemsLeft(items, i, Compact, level)
      decreases |items| - i
    {
      element := EmitElement(sb, mem, kids, node, element, items, i, level, goal);
      i := i + 1;
    }
    CompactArrayEnd(items, level);
    sb.PutChar(CLOSE_ARRAY);
  }

  /** One turn of the loop of emit_array: the element, and a comma if there is a next one. */
  method EmitElement(sb: SB, ghost mem: Mem, ghost kids: Kids, node: JsonNode, element: JsonNode,
                     ghost items: seq<Json>, ghost i: nat, level: nat,
                     ghost goal: seq<byte>) returns (next: JsonNode?)
    requires Current(mem) && AllLinked(mem, kids) && Shows(kids, KeyMap(mem), node, Arr(items)) && node in kids
    requires |kids[node]| == |items|
    requires i < |items| && element == NodeAt(kids[node], i)
    requires sb.Valid() && Printable(items[i]) && goal == sb.Contents() + ItemsLeft(items, i, Compact, level)
    modifies sb, sb.mem
    ensures sb.Valid() && (fresh(sb.mem) || sb.mem == old(sb.mem))
    ensures next == NodeAt(kids[node], i + 1) && goal == sb.Contents() + ItemsLeft(items, i + 1, Compact, level)
    decreases items, 0
  {
    CompactArrayStep(items, i, level);
    ItemAt(kids, KeyMap(mem), node, items, i);
    hide Emit, ItemsLeft, Current, AllLinked, KeyMap, Shows, Printable;
    ChildAt(mem, kids, node, i);
    next := element.next;
    ghost var e, sep := Emit(items[i], Compact, level + 1), if i + 1 < |items| then [COMMA] else [];
    Assoc(sb.Contents(), e, sep + ItemsLeft(items, i + 1, Compact, level));
    EmitValue(sb, mem, kids, element, items[i], Compact, level + 1);
    Assoc(sb.Contents(), sep, ItemsLeft(items, i + 1, Compact, level));
    if next != null {
      sb.PutChar(COMMA);
    } else {
      assert sb.Contents() + [] == sb.Contents();
    }
  }

  lemma CompactArrayStart(items: seq<Json>, level: nat)
    ensures Emit(Arr(items), Compact, level) == [OPEN_ARRAY] + ItemsLeft(items, 0, Compact, level)
  {
    if items != [] {
      ItemsLeftStart(items, Compact, level);
      assert [OPEN_ARRAY] + LineEnd(Compact) == [OPEN_ARRAY];
    }
  }

  lemma CompactArrayOpening(items: seq<Json>, level: nat, base: seq<byte>)
    ensures base + Emit(Arr(items), Compact, level) == (base + [OPEN_ARRAY]) + ItemsLeft(items, 0, Compact, level)
  {
    CompactArrayStart(items, level);
    hide *;
    Assoc(base, [OPEN_ARRAY], ItemsLeft(items, 0, Compact, level));
  }

  lemma CompactArrayStep(items: seq<Json>, i: nat, level: nat)
    requires i < |items|
    ensures ItemsLeft(items, i, Compact, level) ==
            Emit(items[i], Compact, level + 1) +
            ((if i + 1 < |items| then [COMMA] else []) + ItemsLeft(items, i + 1, Compact, level))
  {
    ItemsLeftStep(items, i, Compact, level);
    assert [COMMA] + LineEnd(Compact) == [COMMA];
    hide Emit, ItemsLeft;
  }

  lemma CompactArrayEnd(items: seq<Json>, level: nat)
    ensures ItemsLeft(items, |items|, Compact, level) == [CLOSE_ARRAY]
  {
  }

  /** The loop of emit_array_indented, and the closing bracket. */
  method EmitElementsLines(sb: SB, ghost mem: Mem, ghost kids: Kids, node: JsonNode, ghost items: seq<Json>,
                           space: seq<byte>, level: nat,
                     ghost goal: seq<byte>)
    requires Current(mem) && AllLinked(mem, kids) && Shows(kids, KeyMap(mem), node, Arr(items)) && node in kids
    requires |kids[node]| == |items| && (forall i :: 0 <= i < |items| ==> Printable(items[i]))
    requires sb.Valid() && goal == sb.Contents() + ItemsLeft(items, 0, Indented(space), level)
    modifies sb, sb.mem
    ensures sb.Valid() && (fresh(sb.mem) || sb.mem == old(sb.mem)) && sb.Contents() == goal
    decreases items, 1
  {
    hide ItemsLeft, Current, AllLinked, KeyMap, Shows, Printable, CleanText;
    HeadOf(mem, kids, node);
    ghost var style := Indented(space);
    var element := node.head;
    ghost var i := 0;
    while element != null
      invariant i <= |items| && element == NodeAt(kids[node], i)
      invariant sb.Valid() && (fresh(sb.mem) || sb.mem == old(sb.mem))
      invariant goal == sb.Contents() + ItemsLeft(items, i, style, level)
      decreases |items| - i
    {
      element := EmitElementIndented(sb, mem, kids, node, element, items, i, space, level, goal);
      i := i + 1;
    }
    EndIndented(sb, ItemsLeft(items, i, style, level), space, level, CLOSE_ARRAY) by {
      ItemsLeftEnd(items, style, level);
    }
  }

  /** emit_array_indented. */
  method EmitArrayIndented(sb: SB, ghost mem: Mem, ghost kids: Kids, node: JsonNode, ghost items: seq<Json>,
                           space: seq<byte>, level: nat)
    requires Current(mem) && AllLinked(mem, kids) && Shows(kids, KeyMap(mem), node, Arr(items))
    requires sb.Valid() && forall i :: 0 <= i < |items| ==> Printable(items[i])
    modifies sb, sb.mem
    ensures sb.Valid() && (fresh(sb.mem) || sb.mem == old(sb.mem))
    ensures sb.Contents() == old(sb.Contents()) + Emit(Arr(items), Indented(space), level)
    decreases items, 2
  {
    ShownShape(kids, KeyMap(mem), node, Arr(items));
    hide ItemsLeft, Current, AllLinked, KeyMap, Shows, EmitItems;
    HeadOf(mem, kids, node);
    if node.head == null {
      sb.Put([OPEN_ARRAY, CLOSE_ARRAY]);
      return;
    }
    ghost var goal := sb.Contents() + Emit(Arr(items), Indented(space), level);
    ArrayOpening(items, space, level, sb.Contents());
    hide Emit, Printable, EmitString, CleanText;
    sb.Put([OPEN_ARRAY, 10]);
    EmitElementsLines(sb, mem, kids, node, items, space, level, goal);
  }

  lemma LineShape(a: seq<byte>, b: seq<byte>, c: seq<byte>, d: seq<byte>, e: seq<byte>)
    ensures a + (b + (c + (d + e))) == (a + b + c + d) + e
  {
    Assoc(a, b, c + (d + e));
    Assoc(a + b, c, d + e);
    Assoc(a + b + c, d, e);
  }

  /** The indentation, an element, and the end of the line. */
  method ElementLine(sb: SB, ghost mem: Mem, ghost kids: Kids, node: JsonNode, ghost j: Json, space: seq<byte>,
                     level: nat, more: bool)
    requires Current(mem) && AllLinked(mem, kids) && Shows(kids, KeyMap(mem), node, j) && sb.Valid() && Printable(j)
    modifies sb, sb.mem
    ensures sb.Valid() && (fresh(sb.mem) || sb.mem == old(sb.mem))
    ensures sb.Contents() == old(sb.Contents()) + Repeat(space, level) + Emit(j, Indented(space), level)
                             + Separator(Indented(space), more)
    decreases j, 3
  {
    hide Current, AllLinked, KeyMap, Shows, Printable, Emit, Repeat;
    Indent(sb, space, level);
    EmitValue(sb, mem, kids, node, j, Indented(space), level);
    sb.Put(if more then [COMMA, 10] else [10]);
    assert Separator(Indented(space), more) == if more then [COMMA, 10] else [10];
  }

  /** The closing bracket on its line. */
  method EndIndented(sb: SB, ghost left: seq<byte>, space: seq<byte>, level: nat, close: byte)
    requires sb.Valid() && left == Repeat(space, level) + [close]
    modifies sb, sb.mem
    ensures sb.Valid() && (fresh(sb.mem) || sb.mem == old(sb.mem)) && sb.Contents() == old(sb.Contents()) + left
  {
    Assoc(sb.Contents(), Repeat(space, level), [close]);
    Indent(sb, space, level);
    sb.PutChar(close);
  }

  lemma ItemsLeftEnd(items: seq<Json>, style: Style, level: nat)
    ensures ItemsLeft(items, |items|, style, level) == Indentation(style, level) + [CLOSE_ARRAY]
  {
  }

  lemma ItemLine(items: seq<Json>, i: nat, space: seq<byte>, level: nat, base: seq<byte>)
    requires i < |items|
    ensures var style := Indented(space);
            base + ItemsLeft(items, i, style, level)
            == (base + Repeat(space, level + 1) + Emit(items[i], style, level + 1) + Separator(style, i + 1 < |items|))
               + ItemsLeft(items, i + 1, style, level)
  {
    var style := Indented(space);
    ItemsLeftStep(items, i, style, level);
    assert Indentation(style, level + 1) == Repeat(space, level + 1);
    hide *;
    LineShape(base, Repeat(space, level + 1), Emit(items[i], style, level + 1), Separator(style, i + 1 < |items|),
              ItemsLeft(items, i + 1, style, level));
  }

  /** One turn of the loop of emit_array_indented. */
  method EmitElementIndented(sb: SB, ghost mem: Mem, ghost kids: Kids, node: JsonNode, element: JsonNode,
                             ghost items: seq<Json>, ghost i: nat,
                             space: seq<byte>, level: nat, ghost goal: seq<byte>) returns (next: JsonNode?)
    requires Current(mem) && AllLinked(mem, kids) && Shows(kids, KeyMap(mem), node, Arr(items)) && node in kids
    requires |kids[node]| == |items|
    requires i < |items| && element == NodeAt(kids[node], i)
    requires sb.Valid() && Printable(items[i]) && goal == sb.Contents() + ItemsLeft(items, i, Indented(space), level)
    modifies sb, sb.mem
    ensures sb.Valid() && (fresh(sb.mem) || sb.mem == old(sb.mem))
    ensures next == NodeAt(kids[node], i + 1) && goal == sb.Contents() + ItemsLeft(items, i + 1, Indented(space), level)
    decreases items, 0
  {
    ItemLine(items, i, space, level, sb.Contents());
    ItemAt(kids, KeyMap(mem), node, items, i);
    hide Emit, ItemsLeft, Repeat, Separator, Current, AllLinked, KeyMap, Shows, Printable;
    ChildAt(mem, kids, node, i);
    next := element.next;
    ElementLine(sb, mem, kids, element, items[i], space, level + 1, next != null);
  }

  // ---------------------------------------------------------------- objects

  /** What is still to be written of an object in front of its i-th member. */
  ghost function MembersLeft(members: seq<Member>, i: nat, style: Style, level: nat): seq<byte>
    requires i <= |members|
  {
    if i == |members| then Indentation(style, level) + [CLOSE_OBJECT]
    else
      Indentation(style, level + 1)
      + (EmitMembers(members[i..], style, level + 1) + (NewLine(style, level) + [CLOSE_OBJECT]))
  }

  lemma MembersLeftStart(members: seq<Member>, style: Style, level: nat)
    requires members != []
    ensures Emit(Obj(members), style, level) == ([OPEN_OBJECT] + LineEnd(style)) + MembersLeft(members, 0, style, level)
  {
    NewLineParts(style, level + 1);
    assert members[0..] == members;
    hide EmitMembers, NewLine, Indentation, LineEnd;
    var body, end := EmitMembers(members, style, level + 1), NewLine(style, level) + [CLOSE_OBJECT];
    Assoc([OPEN_OBJECT], LineEnd(style), Indentation(style, level + 1));
    Assoc([OPEN_OBJECT] + NewLine(style, level + 1) + body, NewLine(style, level), [CLOSE_OBJECT]);
    Assoc([OPEN_OBJECT] + NewLine(style, level + 1), body, end);
    Assoc([OPEN_OBJECT] + LineEnd(style), Indentation(style, level + 1), body + end);
  }

  /** A member as one piece: key, colon and value. */
  ghost function EmitMember(m: Member, style: Style, level: nat): seq<byte> {
    EmitString(m.key) + AfterKey(style) + Emit(m.value, style, level)
  }

  lemma MembersLeftStep(members: seq<Member>, i: nat, style: Style, level: nat)
    requires i < |members|
    ensures MembersLeft(members, i, style, level) ==
            Indentation(style, level + 1) + (EmitMember(members[i], style, level + 1) +
            (Separator(style, i + 1 < |members|) + MembersLeft(members, i + 1, style, level)))
  {
    NewLineParts(style, level);
    NewLineParts(style, level + 1);
    assert members[i..][1..] == members[i + 1..];
    hide Emit, EmitString, AfterKey, NewLine, Indentation, LineEnd;
    if i + 1 < |members| {
      MoreShape(EmitMember(members[i], style, level + 1), [COMMA], LineEnd(style), Indentation(style, level + 1),
                EmitMembers(members[i + 1..], style, level + 1), NewLine(style, level) + [CLOSE_OBJECT]);
    } else {
      LastShape(EmitMember(members[i], style, level + 1), LineEnd(style), Indentation(style, level), [CLOSE_OBJECT]);
    }
  }

  /** emit_object. */
  method EmitObject(sb: SB, ghost mem: Mem, ghost kids: Kids, node: JsonNode, ghost members: seq<Member>, level: nat)
    requires Current(mem) && AllLinked(mem, kids) && Shows(kids, KeyMap(mem), node, Obj(members)) && sb.Valid()
    requires forall i :: 0 <= i < |members| ==> CleanText(members[i].key) && Printable(members[i].value)
    modifies sb, sb.mem
    ensures sb.Valid() && (fresh(sb.mem) || sb.mem == old(sb.mem))
    ensures sb.Contents() == old(sb.Contents()) + Emit(Obj(members), Compact, level)
    decreases members, 2
  {
    CompactObjectOpening(members, level, sb.Contents());
    ShownShape(kids, KeyMap(mem), node, Obj(members));
    ghost var goal := sb.Contents() + Emit(Obj(members), Compact, level);
    hide *;
    sb.PutChar(OPEN_OBJECT);
    EmitObjectItems(sb, mem, kids, node, members, level, goal);
  }

  /** The loop of emit_object, and the closing bracket. */
  method EmitObjectItems(sb: SB, ghost mem: Mem, ghost kids: Kids, node: JsonNode, ghost members: seq<Member>,
                         level: nat,
                     ghost goal: seq<byte>)
    requires Current(mem) && AllLinked(mem, kids) && Shows(kids, KeyMap(mem), node, Obj(members)) && node in kids
    requires |kids[node]| == |members|
    requires (forall i :: 0 <= i < |members| ==> CleanText(members[i].key) && Printable(members[i].value))
    requires sb.Valid() && goal == sb.Contents() + MembersLeft(members, 0, Compact, level)
    modifies sb, sb.mem
    ensures sb.Valid() && (fresh(sb.mem) || sb.mem == old(sb.mem)) && sb.Contents() == goal
    decreases members, 1
  {
    hide MembersLeft, Current, AllLinked, KeyMap, Shows, Printable, CleanText;
    HeadOf(mem, kids, node);
    var member := node.head;
    ghost var i := 0;
    while member != null
      invariant i <= |members| && member == NodeAt(kids[node], i)
      invariant sb.Valid() && (fresh(sb.mem) || sb.mem == old(sb.mem))
      invariant goal == sb.Contents() + MembersLeft(members, i, Compact, level)
      decreases |members| - i
    {
      member := EmitMemberCompact(sb, mem, kids, node, member, members, i, level, goal);
      i := i + 1;
    }
    CompactObjectEnd(members, level);
    sb.PutChar(CLOSE_OBJECT);
  }

  /** One turn of the loop of emit_object: the member, and a comma if there is a next one. */
  method EmitMemberCompact(sb: SB, ghost mem: Mem, ghost kids: Kids, node: JsonNode, member: JsonNode,
                           ghost members: seq<Member>, ghost i: nat,
                           level: nat, ghost goal: seq<byte>) returns (next: JsonNode?)
    requires Current(mem) && AllLinked(mem, kids) && Shows(kids, KeyMap(mem), node, Obj(members)) && node in kids
    requires |kids[node]| == |members|
    requires i < |members| && member == NodeAt(kids[node], i) && CleanText(members[i].key)
    requires Printable(members[i].value)
    requires sb.Valid() && goal == sb.Contents() + MembersLeft(members, i, Compact, level)
    modifies sb, sb.mem
    ensures sb.Valid() && (fresh(sb.mem) || sb.mem == old(sb.mem))
    ensures next == NodeAt(kids[node], i + 1) && goal == sb.Contents() + MembersLeft(members, i + 1, Compact, level)
    decreases members, 0
  {
    CompactObjectStep(members, i, level);
    MemberAt(kids, KeyMap(mem), node, members, i);
    hide EmitMember, MembersLeft, CleanText, Current, AllLinked, KeyMap, Shows, Printable;
    ChildAt(mem, kids, node, i);
    next := member.next;
    ghost var e, sep := EmitMember(members[i], Compact, level + 1), if i + 1 < |members| then [COMMA] else [];
    Assoc(sb.Contents(), e, sep + MembersLeft(members, i + 1, Compact, level));
    EmitMemberTo(sb, mem, kids, member, members[i], Compact, level + 1);
    Assoc(sb.Contents(), sep, MembersLeft(members, i + 1, Compact, level));
    if next != null {
      sb.PutChar(COMMA);
    } else {
      assert sb.Contents() + [] == sb.Contents();
    }
  }

  lemma CompactObjectStart(members: seq<Member>, level: nat)
    ensures Emit(Obj(members), Compact, level) == [OPEN_OBJECT] + MembersLeft(members, 0, Compact, level)
  {
    if members != [] {
      MembersLeftStart(members, Compact, level);
      assert [OPEN_OBJECT] + LineEnd(Compact) == [OPEN_OBJECT];
    }
  }

  lemma CompactObjectOpening(members: seq<Member>, level: nat, base: seq<byte>)
    ensures base + Emit(Obj(members), Compact, level)
            == (base + [OPEN_OBJECT]) + MembersLeft(members, 0, Compact, level)
  {
    CompactObjectStart(members, level);
    hide *;
    Assoc(base, [OPEN_OBJECT], MembersLeft(members, 0, Compact, level));
  }

  lemma CompactObjectStep(members: seq<Member>, i: nat, level: nat)
    requires i < |members|
    ensures MembersLeft(members, i, Compact, level) ==
            EmitMember(members[i], Compact, level + 1) +
            ((if i + 1 < |members| then [COMMA] else []) + MembersLeft(members, i + 1, Compact, level))
  {
    MembersLeftStep(members, i, Compact, level);
    assert [COMMA] + LineEnd(Compact) == [COMMA];
    hide EmitMember, MembersLeft;
  }

  lemma CompactObjectEnd(members: seq<Member>, level: nat)
    ensures MembersLeft(members, |members|, Compact, level) == [CLOSE_OBJECT]
  {
  }

  /** Key, colon and value, as both printers write them. */
  method EmitMemberTo(sb: SB, ghost mem: Mem, ghost kids: Kids, node: JsonNode, ghost m: Member, style: Style,
                      level: nat)
    requires Current(mem) && AllLinked(mem, kids) && Shows(kids, KeyMap(mem), node, m.value) && node.key == Some(m.key)
    requires sb.Valid() && CleanText(m.key) && Printable(m.value)
    modifies sb, sb.mem
    ensures sb.Valid() && (fresh(sb.mem) || sb.mem == old(sb.mem))
    ensures sb.Contents() == old(sb.Contents()) + EmitMember(m, style, level)
    decreases m, 3
  {
    hide Emit, EmitString, CleanText, Current, AllLinked, KeyMap, Shows;
    ghost var base := sb.Contents();
    EmitStringTo(sb, node.key.value);
    sb.Put(if style.Compact? then [COLON] else [COLON, 32]);
    Assoc(base, EmitString(m.key), AfterKey(style));
    EmitValue(sb, mem, kids, node, m.value, style, level);
    Assoc(base, EmitString(m.key) + AfterKey(style), Emit(m.value, style, level));
  }

  /** The indentation, a member, and the end of the line. */
  method MemberLine(sb: SB, ghost mem: Mem, ghost kids: Kids, node: JsonNode, ghost m: Member, space: seq<byte>,
                    level: nat, more: bool)
    requires Current(mem) && AllLinked(mem, kids) && Shows(kids, KeyMap(mem), node, m.value) && node.key == Some(m.key)
    requires node in kids && sb.Valid() && CleanText(m.key) && Printable(m.value)
    modifies sb, sb.mem
    ensures sb.Valid() && (fresh(sb.mem) || sb.mem == old(sb.mem))
    ensures sb.Contents() == old(sb.Contents()) + Repeat(space, level) + EmitMember(m, Indented(space), level)
                             + Separator(Indented(space), more)
    decreases m, 4
  {
    hide Current, AllLinked, KeyMap, Shows, Printable, CleanText, EmitMember, Repeat;
    Indent(sb, space, level);
    EmitMemberTo(sb, mem, kids, node, m, Indented(space), level);
    sb.Put(if more then [COMMA, 10] else [10]);
    assert Separator(Indented(space), more) == if more then [COMMA, 10] else [10];
  }

  /** The loop of emit_object_indented, and the closing bracket. */
  method EmitMembersLines(sb: SB, ghost mem: Mem, ghost kids: Kids, node: JsonNode, ghost members: seq<Member>,
                          space: seq<byte>, level: nat,
                     ghost goal: seq<byte>)
    requires Current(mem) && AllLinked(mem, kids) && Shows(kids, KeyMap(mem), node, Obj(members)) && node in kids
    requires |kids[node]| == |members|
    requires (forall i :: 0 <= i < |members| ==> CleanText(members[i].key) && Printable(members[i].value))
    requires sb.Valid() && goal == sb.Contents() + MembersLeft(members, 0, Indented(space), level)
    modifies sb, sb.mem
    ensures sb.Valid() && (fresh(sb.mem) || sb.mem == old(sb.mem)) && sb.Contents() == goal
    decreases members, 1
  {
    hide MembersLeft, Current, AllLinked, KeyMap, Shows, Printable, CleanText;
    HeadOf(mem, kids, node);
    ghost var style := Indented(space);
    var member := node.head;
    ghost var i := 0;
    while member != null
      invariant i <= |members| && member == NodeAt(kids[node], i)
      invariant sb.Valid() && (fresh(sb.mem) || sb.mem == old(sb.mem))
      invariant goal == sb.Contents() + MembersLeft(members, i, style, level)
      decreases |members| - i
    {
      member := EmitMemberIndented(sb, mem, kids, node, member, members, i, space, level, goal);
      i := i + 1;
    }
    EndIndented(sb, MembersLeft(members, i, style, level), space, level, CLOSE_OBJECT) by {
      MembersLeftEnd(members, style, level);
    }
  }

  /** emit_object_indented. */
  method EmitObjectIndented(sb: SB, ghost mem: Mem, ghost kids: Kids, node: JsonNode, ghost members: seq<Member>,
                            space: seq<byte>, level: nat)
    requires Current(mem) && AllLinked(mem, kids) && Shows(kids, KeyMap(mem), node, Obj(members)) && sb.Valid()
    requires forall i :: 0 <= i < |members| ==> CleanText(members[i].key) && Printable(members[i].value)
    modifies sb, sb.mem
    ensures sb.Valid() && (fresh(sb.mem) || sb.mem == old(sb.mem))
    ensures sb.Contents() == old(sb.Contents()) + Emit(Obj(members), Indented(space), level)
    decreases members, 2
  {
    ShownShape(kids, KeyMap(mem), node, Obj(members));
    hide MembersLeft, Current, AllLinked, KeyMap, Shows, EmitMembers;
    HeadOf(mem, kids, node);
    if node.head == null {
      sb.Put([OPEN_OBJECT, CLOSE_OBJECT]);
      return;
    }
    ghost var goal := sb.Contents() + Emit(Obj(members), Indented(space), level);
    ObjectOpening(members, space, level, sb.Contents());
    hide Emit, Printable, EmitString, CleanText;
    sb.Put([OPEN_OBJECT, 10]);
    EmitMembersLines(sb, mem, kids, node, members, space, level, goal);
  }

  lemma MembersLeftEnd(members: seq<Member>, style: Style, level: nat)
    ensures MembersLeft(members, |members|, style, level) == Indentation(style, level) + [CLOSE_OBJECT]
  {
  }

  lemma MemberLineShape(members: seq<Member>, i: nat, space: seq<byte>, level: nat, base: seq<byte>)
    requires i < |members|
    ensures var style := Indented(space);
            base + MembersLeft(members, i, style, level)
            == (base + Repeat(space, level + 1) + EmitMember(members[i], style, level + 1)
                + Separator(style, i + 1 < |members|))
               + MembersLeft(members, i + 1, style, level)
  {
    var style := Indented(space);
    MembersLeftStep(members, i, style, level);
    assert Indentation(style, level + 1) == Repeat(space, level + 1);
    hide *;
    LineShape(base, Repeat(space, level + 1), EmitMember(members[i], style, level + 1),
              Separator(style, i + 1 < |members|),
              MembersLeft(members, i + 1, style, level));
  }

  lemma ObjectOpening(members: seq<Member>, space: seq<byte>, level: nat, base: seq<byte>)
    requires members != []
    ensures base + Emit(Obj(members), Indented(space), level)
            == (base + [OPEN_OBJECT, 10]) + MembersLeft(members, 0, Indented(space), level)
  {
    MembersLeftStart(members, Indented(space), level);
    assert [OPEN_OBJECT] + LineEnd(Indented(space)) == [OPEN_OBJECT, 10];
    hide *;
    Assoc(base, [OPEN_OBJECT, 10], MembersLeft(members, 0, Indented(space), level));
  }

  lemma ArrayOpening(items: seq<Json>, space: seq<byte>, level: nat, base: seq<byte>)
    requires items != []
    ensures base + Emit(Arr(items), Indented(space), level)
            == (base + [OPEN_ARRAY, 10]) + ItemsLeft(items, 0, Indented(space), level)
  {
    ItemsLeftStart(items, Indented(space), level);
    assert [OPEN_ARRAY] + LineEnd(Indented(space)) == [OPEN_ARRAY, 10];
    hide *;
    Assoc(base, [OPEN_ARRAY, 10], ItemsLeft(items, 0, Indented(space), level));
  }

  /** One turn of the loop of emit_object_indented. */
  method EmitMemberIndented(sb: SB, ghost mem: Mem, ghost kids: Kids, node: JsonNode, member: JsonNode,
                            ghost members: seq<Member>, ghost i: nat,
                            space: seq<byte>, level: nat, ghost goal: seq<byte>) returns (next: JsonNode?)
    requires Current(mem) && AllLinked(mem, kids) && Shows(kids, KeyMap(mem), node, Obj(members)) && node in kids
    requires |kids[node]| == |members|
    requires i < |members| && member == NodeAt(kids[node], i) && CleanText(members[i].key)
    requires Printable(members[i].value)
    requires sb.Valid() && goal == sb.Contents() + MembersLeft(members, i, Indented(space), level)
    modifies sb, sb.mem
    ensures sb.Valid() && (fresh(sb.mem) || sb.mem == old(sb.mem))
    ensures next == NodeAt(kids[node], i + 1)
    ensures goal == sb.Contents() + MembersLeft(members, i + 1, Indented(space), level)
    decreases members, 0
  {
    MemberLineShape(members, i, space, level, sb.Contents());
    MemberAt(kids, KeyMap(mem), node, members, i);
    hide EmitMember, MembersLeft, Repeat, Separator, CleanText, Current, AllLinked, KeyMap, Shows, Printable;
    ChildAt(mem, kids, node, i);
    next := member.next;
    MemberLine(sb, mem, kids, member, members[i], space, level + 1, next != null);
  }

  /** json_stringify, and json_encode for the compact style: the text holds no NUL to cut it short. */
  method JsonStringify(f: Forest, node: JsonNode, ghost j: Json, style: Style) returns (text: seq<byte>)
    requires f.Valid() && Shows(f.kids, f.Keys(), node, j) && Printable(j) && (style.Indented? ==> 0 !in style.space)
    ensures text == Emit(j, style, 0) && 0 !in text
  {
    hide AllLinked, Ranked, Ledger, StateOf, KeyMap, Shows, Printable, Emit;
    StateIsCurrent(f);
    var sb := new SB();
    EmitValue(sb, f.State(), f.kids, node, j, style, 0);
    EmitNoNul(j, style, 0);
    assert sb.Contents() == Emit(j, style, 0);
    text := sb.Finish();
  }

  lemma {:induction false} RepeatNoNul(space: seq<byte>, n: nat)
    requires 0 !in space
    ensures 0 !in Repeat(space, n)
  {
    if n > 0 { RepeatNoNul(space, n - 1); }
  }

  lemma NewLineNoNul(style: Style, n: nat)
    requires style.Indented? ==> 0 !in style.space
    ensures 0 !in NewLine(style, n) && 0 !in AfterKey(style)
  {
    if style.Indented? { RepeatNoNul(style.space, n); }
  }

  lemma {:induction false} StringNoNul(s: seq<byte>)
    requires CleanText(s)
    ensures 0 !in EmitChars(s)
    decreases |s|
  {
    if s != [] {
      var c := s[..CharLen(s)];
      assert s == c + s[CharLen(s)..];
      StringNoNul(s[CharLen(s)..]);
      CharOctets(c);
    }
  }

  lemma {:induction false} EmitNoNul(j: Json, style: Style, level: nat)
    requires Printable(j) && (style.Indented? ==> 0 !in style.space)
    ensures 0 !in Emit(j, style, level)
    decreases j, 1
  {
    hide EmitChars, NewLine;
    NewLineNoNul(style, level);
    NewLineNoNul(style, level + 1);
    match j
    case Str(text) => StringNoNul(text);
    case Arr(items) => if items != [] { ItemsNoNul(items, style, level + 1); }
    case Obj(members) => if members != [] { MembersNoNul(members, style, level + 1); }
    case _ =>
  }

  lemma {:induction false} ItemsNoNul(items: seq<Json>, style: Style, level: nat)
    requires items != [] && (style.Indented? ==> 0 !in style.space)
    requires forall i :: 0 <= i < |items| ==> Printable(items[i])
    ensures 0 !in EmitItems(items, style, level)
    decreases items, 0
  {
    hide NewLine, Emit;
    NewLineNoNul(style, level);
    EmitNoNul(items[0], style, level);
    if |items| > 1 { ItemsNoNul(items[1..], style, level); }
  }

  lemma {:induction false} MembersNoNul(members: seq<Member>, style: Style, level: nat)
    requires members != [] && (style.Indented? ==> 0 !in style.space)
    requires forall i :: 0 <= i < |members| ==> CleanText(members[i].key) && Printable(members[i].value)
    ensures 0 !in EmitMembers(members, style, level)
    decreases members, 0
  {
    hide NewLine, Emit, AfterKey, EmitChars;
    NewLineNoNul(style, level);
    StringNoNul(members[0].key);
    EmitNoNul(members[0].value, style, level);
    if |members| > 1 { MembersNoNul(members[1..], style, level); }
  }
}
