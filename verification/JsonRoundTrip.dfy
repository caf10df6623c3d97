/** What json_decode makes of the output of json_encode and json_stringify. */
module JsonRoundTrip {
  import opened Bytes
  import opened Utf8
  import opened JsonStrings
  import opened JsonText
  import N = JsonNumbers

  // One turn of the reader's loops, for what may follow a value.

  lemma ItemsLast(r: seq<byte>, v: Json, after: seq<byte>, rest: seq<byte>)
    requires ParseValue(r) == Some(Value(v, after)) && SkipSpace(after) == [CLOSE_ARRAY] + rest
    ensures ParseItems(r) == Some(Items([v], rest))
  {
    hide ParseValue, SkipSpace;
    assert ([CLOSE_ARRAY] + rest)[1..] == rest;
  }

  lemma ItemsMore(r: seq<byte>, v: Json, after: seq<byte>, next: seq<byte>)
    requires ParseValue(r) == Some(Value(v, after)) && SkipSpace(after) == [COMMA] + next
    ensures ParseItems(r) == match ParseItems(SkipSpace(next))
                             case None => None
                             case Some(more) => Some(Items([v] + more.items, more.rest))
  {
    hide ParseValue, SkipSpace;
    assert ([COMMA] + next)[1..] == next;
  }

  lemma MembersLast(r: seq<byte>, k: Chars, v: Json, after: seq<byte>, rest: seq<byte>)
    requires ParseKey(r) == Some(k) && ParseValue(k.rest) == Some(Value(v, after))
    requires SkipSpace(after) == [CLOSE_OBJECT] + rest
    ensures ParseMembers(r) == Some(Members([Member(k.text, v)], rest))
  {
    hide ParseValue, ParseKey, SkipSpace;
    assert ([CLOSE_OBJECT] + rest)[1..] == rest;
  }

  lemma MembersMore(r: seq<byte>, k: Chars, v: Json, after: seq<byte>, next: seq<byte>)
    requires ParseKey(r) == Some(k) && ParseValue(k.rest) == Some(Value(v, after))
    requires SkipSpace(after) == [COMMA] + next
    ensures ParseMembers(r) == match ParseMembers(SkipSpace(next))
                               case None => None
                               case Some(more) => Some(Members([Member(k.text, v)] + more.members, more.rest))
  {
    hide ParseValue, ParseKey, SkipSpace;
    assert ([COMMA] + next)[1..] == next;
  }

  lemma ArrayStart(gap: seq<byte>, s: seq<byte>)
    requires Blank(gap) && s != [] && !IsSpace(s[0]) && s[0] != CLOSE_ARRAY
    ensures ParseValue([OPEN_ARRAY] + (gap + s))
            == match ParseItems(s)
               case None => None
               case Some(items) => Some(Value(Arr(items.items), items.rest))
  {
    hide SkipSpace, ParseItems, ParseMembers, ParseNumber, ParseChars, Literal;
    SkipBlank(gap, s);
    assert ([OPEN_ARRAY] + (gap + s))[1..] == gap + s;
  }

  lemma ObjectStart(gap: seq<byte>, s: seq<byte>)
    requires Blank(gap) && s != [] && !IsSpace(s[0]) && s[0] != CLOSE_OBJECT
    ensures ParseValue([OPEN_OBJECT] + (gap + s))
            == match ParseMembers(s)
               case None => None
               case Some(members) => Some(Value(Obj(members.members), members.rest))
  {
    hide SkipSpace, ParseItems, ParseMembers, ParseNumber, ParseChars, Literal;
    SkipBlank(gap, s);
    assert ([OPEN_OBJECT] + (gap + s))[1..] == gap + s;
  }

  // The shape of what is written, grouped as it is read.

  lemma ArrayShape(items: seq<Json>, style: Style, level: nat, rest: seq<byte>)
    requires items != []
    ensures Emit(Arr(items), style, level) + rest ==
            [OPEN_ARRAY] + (NewLine(style, level + 1)
              + (EmitItems(items, style, level + 1) + (NewLine(style, level) + ([CLOSE_ARRAY] + rest))))
  {
    hide NewLine, EmitItems;
  }

  lemma ObjectShape(members: seq<Member>, style: Style, level: nat, rest: seq<byte>)
    requires members != []
    ensures Emit(Obj(members), style, level) + rest ==
            [OPEN_OBJECT] + (NewLine(style, level + 1)
              + (EmitMembers(members, style, level + 1) + (NewLine(style, level) + ([CLOSE_OBJECT] + rest))))
  {
    hide NewLine, EmitMembers;
  }

  lemma ItemsShape(items: seq<Json>, style: Style, level: nat, tail: seq<byte>)
    requires items != []
    ensures EmitItems(items, style, level) + tail ==
            Emit(items[0], style, level) +
            (if |items| == 1 then tail
             else [COMMA] + (NewLine(style, level) + (EmitItems(items[1..], style, level) + tail)))
  {
    hide NewLine, Emit;
  }

  lemma MembersShape(members: seq<Member>, style: Style, level: nat, tail: seq<byte>)
    requires members != []
    ensures EmitMembers(members, style, level) + tail ==
            EmitString(members[0].key) + (AfterKey(style) + (Emit(members[0].value, style, level) +
            (if |members| == 1 then tail
             else [COMMA] + (NewLine(style, level) + (EmitMembers(members[1..], style, level) + tail)))))
  {
    hide NewLine, Emit, EmitString, AfterKey;
  }

  /** x starts with a character at which the reader neither skips space nor closes a list. */
  ghost predicate Starts(x: seq<byte>) {
    x != [] && !IsSpace(x[0]) && x[0] != CLOSE_ARRAY && x[0] != CLOSE_OBJECT
  }

  lemma StartsAppend(x: seq<byte>, y: seq<byte>)
    requires Starts(x)
    ensures Starts(x + y)
  {
  }

  lemma EmitStarts(j: Json, style: Style, level: nat)
    ensures Starts(Emit(j, style, level))
  {
    EmitStart(j, style, level);
  }

  lemma EmitItemsStarts(items: seq<Json>, style: Style, level: nat)
    requires items != []
    ensures Starts(EmitItems(items, style, level))
  {
    EmitStarts(items[0], style, level);
  }

  lemma EmitMembersStarts(members: seq<Member>, style: Style, level: nat)
    requires members != []
    ensures Starts(EmitMembers(members, style, level))
  {
    assert EmitString(members[0].key)[0] == QUOTE;
  }

  // Scalars.

  lemma LiteralReadsBack(text: seq<byte>, v: Json, rest: seq<byte>)
    requires (text, v) == (NULL, Null) || (text, v) == (TRUE, Bool(true)) || (text, v) == (FALSE, Bool(false))
    ensures ParseValue(text + rest) == Some(Value(v, rest))
  {
    var r := text + rest;
    assert r[0] == text[0] && text <= r && r[|text|..] == rest;
  }

  lemma StringReadsBack(text: seq<byte>, rest: seq<byte>)
    requires CleanText(text)
    ensures ParseValue(EmitString(text) + rest) ==
            if UNIT_SEPARATOR in text then None else Some(Value(Str(text), rest))
  {
    hide ParseChars, EmitChars;
    var r := EmitString(text) + rest;
    LiteralShape(EmitChars(text), rest);
    StringRoundTrip(text, rest);
    hide ParseItems, ParseMembers, ParseNumber, Literal, SkipSpace;
  }

  lemma LiteralShape(chars: seq<byte>, rest: seq<byte>)
    ensures var r := ([QUOTE] + chars + [QUOTE]) + rest;
            r[0] == QUOTE && r[1..] == chars + ([QUOTE] + rest)
  {
  }

  lemma NumberReadsBack(lexeme: seq<byte>, rest: seq<byte>)
    requires N.Valid(lexeme) && N.Ends(rest)
    ensures ParseValue(lexeme + rest) == Some(Value(Num(lexeme), rest))
  {
    hide ParseValue, N.NumberLen, N.Valid, N.Ends;
    var r := lexeme + rest;
    NumberStart(lexeme);
    assert r[0] == lexeme[0] && r[..|lexeme|] == lexeme && r[|lexeme|..] == rest;
    N.NumberReadsBack(lexeme, rest);
    assert r[0] == 45 || N.IsDigit(r[0]);
    OtherIsNumber(r);
  }

  lemma OtherIsNumber(r: seq<byte>)
    requires r != [] && r[0] !in {110, 102, 116, QUOTE, OPEN_ARRAY, OPEN_OBJECT}
    ensures ParseValue(r) == ParseNumber(r)
  {
    hide ParseItems, ParseMembers, ParseNumber, ParseChars, Literal, SkipSpace;
  }

  // Arrays and objects.

  ghost function Reread(j: Json, rest: seq<byte>): Option<Value> {
    if Separated(j) then None else Some(Value(Written(j), rest))
  }

  function WrittenItems(items: seq<Json>): seq<Json> {
    seq(|items|, i requires 0 <= i < |items| => Written(items[i]))
  }

  ghost predicate SeparatedItems(items: seq<Json>) {
    exists i :: 0 <= i < |items| && Separated(items[i])
  }

  ghost predicate CleanItems(items: seq<Json>) {
    forall i :: 0 <= i < |items| ==> Clean(items[i])
  }

  lemma ItemsSplit(items: seq<Json>)
    requires items != []
    ensures WrittenItems(items) == [Written(items[0])] + WrittenItems(items[1..])
    ensures SeparatedItems(items) <==> Separated(items[0]) || SeparatedItems(items[1..])
    ensures CleanItems(items) <==> Clean(items[0]) && CleanItems(items[1..])
  {
    hide Separated, Clean, Written;
    var first, rest := items[0], items[1..];
    assert items == [first] + rest;
    if Separated(first) {
      assert items[0] == first;
    }
    if SeparatedItems(rest) {
      var i :| 0 <= i < |rest| && Separated(rest[i]);
      assert items[i + 1] == rest[i];
    }
    if CleanItems(items) {
      forall i | 0 <= i < |rest| ensures Clean(rest[i]) {
        assert rest[i] == items[i + 1];
      }
    }
  }

  function WrittenMembers(members: seq<Member>): seq<Member> {
    seq(|members|, i requires 0 <= i < |members| => Member(members[i].key, Written(members[i].value)))
  }

  ghost predicate SeparatedMember(m: Member) { UNIT_SEPARATOR in m.key || Separated(m.value) }

  ghost predicate SeparatedMembers(members: seq<Member>) {
    exists i :: 0 <= i < |members| && SeparatedMember(members[i])
  }

  ghost predicate CleanMember(m: Member) { CleanText(m.key) && Clean(m.value) }

  ghost predicate CleanMembers(members: seq<Member>) {
    forall i :: 0 <= i < |members| ==> CleanMember(members[i])
  }

  lemma MembersSplit(members: seq<Member>)
    requires members != []
    ensures WrittenMembers(members) ==
            [Member(members[0].key, Written(members[0].value))] + WrittenMembers(members[1..])
    ensures SeparatedMembers(members) <==> SeparatedMember(members[0]) || SeparatedMembers(members[1..])
    ensures CleanMembers(members) <==> CleanMember(members[0]) && CleanMembers(members[1..])
  {
    hide Separated, Clean, Written, SeparatedMember, CleanMember;
    var first, rest := members[0], members[1..];
    assert members == [first] + rest;
    if SeparatedMember(first) {
      assert members[0] == first;
    }
    if SeparatedMembers(rest) {
      var i :| 0 <= i < |rest| && SeparatedMember(rest[i]);
      assert members[i + 1] == rest[i];
    }
    if CleanMembers(members) {
      forall i | 0 <= i < |rest| ensures CleanMember(rest[i]) {
        assert rest[i] == members[i + 1];
      }
    }
  }

  lemma GapEnds(gap: seq<byte>, c: byte, rest: seq<byte>)
    requires Blank(gap) && (c == CLOSE_ARRAY || c == CLOSE_OBJECT || c == COMMA)
    ensures N.Ends(gap + ([c] + rest))
  {
    var s := gap + ([c] + rest);
    assert s[0] == if gap == [] then c else gap[0];
  }

  lemma GapSkipped(gap: seq<byte>, c: byte, rest: seq<byte>)
    requires Blank(gap) && !IsSpace(c)
    ensures SkipSpace(gap + ([c] + rest)) == [c] + rest
  {
    SkipBlank(gap, [c] + rest);
  }

  lemma EmptyReadsBack(open: byte, close: byte, rest: seq<byte>)
    requires (open, close) == (OPEN_ARRAY, CLOSE_ARRAY) || (open, close) == (OPEN_OBJECT, CLOSE_OBJECT)
    ensures ParseValue([open, close] + rest) == Some(Value(if open == OPEN_ARRAY then Arr([]) else Obj([]), rest))
  {
    hide ParseValue;
    var r, s := [open, close] + rest, [close] + rest;
    assert r[0] == open && r[1..] == s && s[1..] == rest;
    NotSkipped(s);
    OpensEmpty(r);
  }

  lemma OpensEmpty(r: seq<byte>)
    requires r != []
    ensures var s := SkipSpace(r[1..]);
            && (r[0] == OPEN_ARRAY && s != [] && s[0] == CLOSE_ARRAY ==> ParseValue(r) == Some(Value(Arr([]), s[1..])))
            && (r[0] == OPEN_OBJECT && s != [] && s[0] == CLOSE_OBJECT ==>
                  ParseValue(r) == Some(Value(Obj([]), s[1..])))
  {
    hide ParseItems, ParseMembers, ParseNumber, ParseChars, Literal, SkipSpace;
  }

  lemma NotSkipped(s: seq<byte>)
    requires s != [] && !IsSpace(s[0])
    ensures SkipSpace(s) == s
  {
  }

  lemma RereadLists(items: seq<Json>, members: seq<Member>)
    ensures Separated(Arr(items)) <==> SeparatedItems(items)
    ensures Written(Arr(items)) == Arr(WrittenItems(items))
    ensures Clean(Arr(items)) <==> CleanItems(items)
    ensures Separated(Obj(members)) <==> SeparatedMembers(members)
    ensures Written(Obj(members)) == Obj(WrittenMembers(members))
    ensures Clean(Obj(members)) <==> CleanMembers(members)
  {
  }

  /** Any clean value, in any style, in front of anything that does not prolong a number. */
  lemma {:induction false} ValueReadsBack(j: Json, style: Style, level: nat, rest: seq<byte>)
    requires Clean(j) && BlankStyle(style) && N.Ends(rest)
    ensures ParseValue(Emit(j, style, level) + rest) == Reread(j, rest)
    decreases j, 1
  {
    match j
    case Arr(items) =>
      hide *;
      if items != [] {
        ArrayReadsBack(items, style, level, rest);
      } else {
        EmptyEmits(j, style, level, rest);
      }
    case Obj(members) =>
      hide *;
      if members != [] {
        ObjectReadsBack(members, style, level, rest);
      } else {
        EmptyEmits(j, style, level, rest);
      }
    case _ => ScalarReadsBack(j, style, level, rest);
  }

  lemma EmptyEmits(j: Json, style: Style, level: nat, rest: seq<byte>)
    requires j == Arr([]) || j == Obj([])
    ensures ParseValue(Emit(j, style, level) + rest) == Reread(j, rest)
  {
    hide ParseValue;
    EmptyReadsBack(if j.Arr? then OPEN_ARRAY else OPEN_OBJECT, if j.Arr? then CLOSE_ARRAY else CLOSE_OBJECT, rest);
    RereadLists([], []);
    assert WrittenItems([]) == [] && WrittenMembers([]) == [];
  }

  lemma ScalarReadsBack(j: Json, style: Style, level: nat, rest: seq<byte>)
    requires !j.Arr? && !j.Obj? && Clean(j) && N.Ends(rest)
    ensures ParseValue(Emit(j, style, level) + rest) == Reread(j, rest)
  {
    hide ParseValue, EmitString;
    match j
    case Null => LiteralReadsBack(NULL, Null, rest);
    case Bool(b) => LiteralReadsBack(if b then TRUE else FALSE, j, rest);
    case Str(text) => StringReadsBack(text, rest);
    case Num(lexeme) =>
      if N.Valid(lexeme) { NumberReadsBack(lexeme, rest); } else { LiteralReadsBack(NULL, Null, rest); }
  }

  lemma {:induction false} ArrayReadsBack(items: seq<Json>, style: Style, level: nat, rest: seq<byte>)
    requires items != [] && Clean(Arr(items)) && BlankStyle(style)
    ensures ParseValue(Emit(Arr(items), style, level) + rest) == Reread(Arr(items), rest)
    decreases items, 1
  {
    RereadLists(items, []);
    hide ParseValue, ParseItems, EmitItems, Emit, NewLine, Written, Separated, Clean;
    hide CleanItems, SeparatedItems, WrittenItems, Starts, Blank;
    var gap, body := NewLine(style, level), EmitItems(items, style, level + 1);
    NewLineBlank(style, level);
    NewLineBlank(style, level + 1);
    ItemsReadBack(items, style, level + 1, gap, rest);
    ArrayShape(items, style, level, rest);
    var s := body + (gap + ([CLOSE_ARRAY] + rest));
    assert s != [] && !IsSpace(s[0]) && s[0] != CLOSE_ARRAY by {
      EmitItemsStarts(items, style, level + 1);
      StartsAppend(body, gap + ([CLOSE_ARRAY] + rest));
      StartsMeans(s);
    }
    ArrayStart(NewLine(style, level + 1), s);
  }

  lemma StartsMeans(x: seq<byte>)
    ensures Starts(x) ==> x != [] && !IsSpace(x[0]) && x[0] != CLOSE_ARRAY && x[0] != CLOSE_OBJECT
  {
  }

  lemma {:induction false} ObjectReadsBack(members: seq<Member>, style: Style, level: nat, rest: seq<byte>)
    requires members != [] && Clean(Obj(members)) && BlankStyle(style)
    ensures ParseValue(Emit(Obj(members), style, level) + rest) == Reread(Obj(members), rest)
    decreases members, 1
  {
    RereadLists([], members);
    hide ParseValue, ParseMembers, EmitMembers, Emit, NewLine, Written, Separated, Clean;
    hide CleanMembers, SeparatedMembers, WrittenMembers, Starts, Blank;
    var gap, body := NewLine(style, level), EmitMembers(members, style, level + 1);
    NewLineBlank(style, level);
    NewLineBlank(style, level + 1);
    MembersReadBack(members, style, level + 1, gap, rest);
    ObjectShape(members, style, level, rest);
    var s := body + (gap + ([CLOSE_OBJECT] + rest));
    assert s != [] && !IsSpace(s[0]) && s[0] != CLOSE_OBJECT by {
      EmitMembersStarts(members, style, level + 1);
      StartsAppend(body, gap + ([CLOSE_OBJECT] + rest));
      StartsMeans(s);
    }
    ObjectStart(NewLine(style, level + 1), s);
  }

  lemma ItemsNone(r: seq<byte>)
    requires ParseValue(r).None?
    ensures ParseItems(r).None?
  {
    hide ParseValue;
  }

  /** The first value of a list was read up to after; what follows decides the list. */
  lemma ItemsContinue(r: seq<byte>, x: Json, after: seq<byte>, line: seq<byte>, body: seq<byte>)
    requires ParseValue(r) == Reread(x, after) && after == [COMMA] + (line + body)
    requires Blank(line) && body != [] && !IsSpace(body[0])
    ensures ParseItems(r) == if Separated(x) || ParseItems(body).None? then None
                             else Some(Items([Written(x)] + ParseItems(body).value.items, ParseItems(body).value.rest))
  {
    hide ParseValue, ParseItems, SkipSpace, Separated, Written;
    SkipBlank(line, body);
    GapSkipped([], COMMA, line + body);
    assert [] + after == after;
    if Separated(x) { ItemsNone(r); } else { ItemsMore(r, Written(x), after, line + body); }
  }

  lemma {:induction false} ItemsReadBack(items: seq<Json>, style: Style, level: nat, gap: seq<byte>, rest: seq<byte>)
    requires items != [] && CleanItems(items) && BlankStyle(style) && Blank(gap)
    ensures ParseItems(EmitItems(items, style, level) + (gap + ([CLOSE_ARRAY] + rest))) ==
            if SeparatedItems(items) then None else Some(Items(WrittenItems(items), rest))
    decreases items, 0
  {
    var x, xs, tail := items[0], items[1..], gap + ([CLOSE_ARRAY] + rest);
    var r := EmitItems(items, style, level) + tail;
    ItemsSplit(items);
    ItemsShape(items, style, level, tail);
    if xs == [] {
      assert WrittenItems(xs) == [] && !SeparatedItems(xs);
      assert [Written(x)] + [] == [Written(x)];
      hide ParseValue, ParseItems, EmitItems, Emit, SkipSpace, Written, Separated, Clean;
      hide CleanItems, SeparatedItems, WrittenItems, Blank;
      GapEnds(gap, CLOSE_ARRAY, rest);
      GapSkipped(gap, CLOSE_ARRAY, rest);
      ValueReadsBack(x, style, level, tail);
      if Separated(x) { ItemsNone(r); } else { ItemsLast(r, Written(x), tail, rest); }
    } else {
      hide ParseValue, ParseItems, EmitItems, Emit, SkipSpace, Written, Separated, Clean, NewLine;
      hide CleanItems, SeparatedItems, WrittenItems, Blank, Starts;
      var line, body := NewLine(style, level), EmitItems(xs, style, level) + tail;
      var after := [COMMA] + (line + body);
      NewLineBlank(style, level);
      assert N.Ends(after);
      ValueReadsBack(x, style, level, after);
      ItemsReadBack(xs, style, level, gap, rest);
      EmitItemsStarts(xs, style, level);
      StartsAppend(EmitItems(xs, style, level), tail);
      StartsMeans(body);
      ItemsContinue(r, x, after, line, body);
    }
  }

  lemma MembersNone(r: seq<byte>)
    requires ParseKey(r).None? || ParseValue(ParseKey(r).value.rest).None?
    ensures ParseMembers(r).None?
  {
    hide ParseValue, ParseKey;
  }

  /** A written key with its colon, in front of a written value. */
  lemma KeyReadsBack(key: seq<byte>, style: Style, e: seq<byte>)
    requires CleanText(key) && e != [] && !IsSpace(e[0])
    ensures ParseKey(EmitString(key) + (AfterKey(style) + e)) ==
            if UNIT_SEPARATOR in key then None else Some(Chars(key, e))
  {
    hide *;
    var s := AfterKey(style) + e;
    LiteralShape(EmitChars(key), s);
    CleanIs(key);
    StringRoundTrip(key, s);
    ColonSkipped(style, e);
    QuotedIs(key);
    KeyIs(EmitString(key) + s);
  }

  lemma CleanIs(s: seq<byte>)
    requires CleanText(s)
    ensures IsText(s) && 0 !in s
  {
  }

  lemma QuotedIs(s: seq<byte>)
    ensures EmitString(s) == [QUOTE] + EmitChars(s) + [QUOTE]
  {
    hide EmitChars;
  }

  /** A key by its parts. */
  lemma KeyIs(r: seq<byte>)
    requires r != [] && r[0] == QUOTE
    ensures var c := ParseChars(r[1..]);
            ParseKey(r) == if c.None? || SkipSpace(c.value.rest) == [] || SkipSpace(c.value.rest)[0] != COLON then None
                           else Some(Chars(c.value.text, SkipSpace(SkipSpace(c.value.rest)[1..])))
  {
    hide ParseChars, SkipSpace;
  }

  lemma ColonSkipped(style: Style, e: seq<byte>)
    requires e != [] && !IsSpace(e[0])
    ensures var s := AfterKey(style) + e;
            s[0] == COLON && SkipSpace(s) == s && SkipSpace(s[1..]) == e
  {
    hide SkipSpace, AfterKey, Blank;
    var s, blank := ColonShape(style, e);
    SkipBlank(blank, e);
    SkipBlank([], s);
    assert [] + s == s;
  }

  lemma ColonShape(style: Style, e: seq<byte>) returns (s: seq<byte>, blank: seq<byte>)
    ensures s == AfterKey(style) + e && s != [] && s[0] == COLON && s[1..] == blank + e && Blank(blank) && Blank([])
  {
    s, blank := AfterKey(style) + e, AfterKey(style)[1..];
    assert AfterKey(style)[0] == COLON;
  }

  /** The first member of an object was read up to after; what follows decides the object. */
  lemma MembersContinue(r: seq<byte>, m: Member, e: seq<byte>, after: seq<byte>, line: seq<byte>, body: seq<byte>)
    requires ParseKey(r) == if UNIT_SEPARATOR in m.key then None else Some(Chars(m.key, e))
    requires ParseValue(e) == Reread(m.value, after) && after == [COMMA] + (line + body)
    requires Blank(line) && body != [] && !IsSpace(body[0])
    ensures ParseMembers(r) ==
            if SeparatedMember(m) || ParseMembers(body).None? then None
            else Some(Members([Member(m.key, Written(m.value))] + ParseMembers(body).value.members,
                              ParseMembers(body).value.rest))
  {
    hide ParseValue, ParseMembers, ParseKey, SkipSpace, Separated, Written;
    SkipBlank(line, body);
    GapSkipped([], COMMA, line + body);
    assert [] + after == after;
    if SeparatedMember(m) {
      MembersNone(r);
    } else {
      MembersMore(r, Chars(m.key, e), Written(m.value), after, line + body);
    }
  }

  lemma MembersEnd(r: seq<byte>, m: Member, e: seq<byte>, gap: seq<byte>, rest: seq<byte>)
    requires ParseKey(r) == if UNIT_SEPARATOR in m.key then None else Some(Chars(m.key, e))
    requires Blank(gap) && ParseValue(e) == Reread(m.value, gap + ([CLOSE_OBJECT] + rest))
    ensures ParseMembers(r) ==
            if SeparatedMember(m) then None else Some(Members([Member(m.key, Written(m.value))], rest))
  {
    hide ParseValue, ParseMembers, ParseKey, SkipSpace, Separated, Written;
    GapSkipped(gap, CLOSE_OBJECT, rest);
    if SeparatedMember(m) {
      MembersNone(r);
    } else {
      MembersLast(r, Chars(m.key, e), Written(m.value), gap + ([CLOSE_OBJECT] + rest), rest);
    }
  }

  /** The last member of an object: nothing but the closing brace follows. */
  lemma LastMember(m: Member, style: Style, level: nat, gap: seq<byte>, rest: seq<byte>)
    requires CleanMember(m) && Blank(gap)
    requires var tail := gap + ([CLOSE_OBJECT] + rest);
             ParseValue(Emit(m.value, style, level) + tail) == Reread(m.value, tail)
    ensures ParseMembers(EmitMembers([m], style, level) + (gap + ([CLOSE_OBJECT] + rest))) ==
            if SeparatedMember(m) then None else Some(Members([Member(m.key, Written(m.value))], rest))
  {
    var tail := gap + ([CLOSE_OBJECT] + rest);
    var e := Emit(m.value, style, level) + tail;
    MembersShape([m], style, level, tail);
    EmitStarts(m.value, style, level);
    hide ParseValue, ParseMembers, ParseKey, EmitMembers, Emit, EmitString, AfterKey, Written, Separated, Clean;
    hide SeparatedMember, Blank, Starts, CleanText;
    StartsAppend(Emit(m.value, style, level), tail);
    StartsMeans(e);
    KeyReadsBack(m.key, style, e);
    MembersEnd(EmitMembers([m], style, level) + tail, m, e, gap, rest);
  }

  /** A member with others behind it. */
  lemma EarlierMember(members: seq<Member>, style: Style, level: nat, tail: seq<byte>)
    requires |members| > 1 && CleanMember(members[0]) && BlankStyle(style)
    requires var after := [COMMA] + (NewLine(style, level) + (EmitMembers(members[1..], style, level) + tail));
             ParseValue(Emit(members[0].value, style, level) + after) == Reread(members[0].value, after)
    ensures var m, more := members[0], ParseMembers(EmitMembers(members[1..], style, level) + tail);
            ParseMembers(EmitMembers(members, style, level) + tail) ==
            if SeparatedMember(m) || more.None? then None
            else Some(Members([Member(m.key, Written(m.value))] + more.value.members, more.value.rest))
  {
    var m, line, body := members[0], NewLine(style, level), EmitMembers(members[1..], style, level) + tail;
    var after := [COMMA] + (line + body);
    var e := Emit(m.value, style, level) + after;
    MembersShape(members, style, level, tail);
    EmitStarts(m.value, style, level);
    hide ParseValue, ParseMembers, ParseKey, EmitMembers, Emit, EmitString, AfterKey, Written, Separated, Clean;
    hide SeparatedMember, Blank, Starts, CleanText, NewLine;
    NewLineBlank(style, level);
    StartsAppend(Emit(m.value, style, level), after);
    StartsMeans(e);
    KeyReadsBack(m.key, style, e);
    EmitMembersStarts(members[1..], style, level);
    StartsAppend(EmitMembers(members[1..], style, level), tail);
    StartsMeans(body);
    MembersContinue(EmitMembers(members, style, level) + tail, m, e, after, line, body);
  }

  lemma {:induction false} MembersReadBack(members: seq<Member>, style: Style, level: nat, gap: seq<byte>,
                                           rest: seq<byte>)
    requires members != [] && CleanMembers(members) && BlankStyle(style) && Blank(gap)
    ensures ParseMembers(EmitMembers(members, style, level) + (gap + ([CLOSE_OBJECT] + rest))) ==
            if SeparatedMembers(members) then None else Some(Members(WrittenMembers(members), rest))
    decreases members, 0
  {
    var m, ms, tail := members[0], members[1..], gap + ([CLOSE_OBJECT] + rest);
    MembersSplit(members);
    assert CleanMember(m) && Clean(m.value);
    if ms == [] {
      assert WrittenMembers(ms) == [] && !SeparatedMembers(ms) && members == [m];
      assert [Member(m.key, Written(m.value))] + [] == [Member(m.key, Written(m.value))];
      hide ParseValue, ParseMembers, EmitMembers, Emit, Written, Separated, Clean;
      hide CleanMembers, SeparatedMembers, SeparatedMember, WrittenMembers, Blank;
      GapEnds(gap, CLOSE_OBJECT, rest);
      ValueReadsBack(m.value, style, level, tail);
      LastMember(m, style, level, gap, rest);
    } else {
      hide ParseValue, ParseMembers, EmitMembers, Emit, Written, Separated, Clean;
      hide CleanMembers, SeparatedMembers, SeparatedMember, WrittenMembers, Blank, NewLine;
      var after := [COMMA] + (NewLine(style, level) + (EmitMembers(ms, style, level) + tail));
      assert N.Ends(after);
      ValueReadsBack(m.value, style, level, after);
      MembersReadBack(ms, style, level, gap, rest);
      EarlierMember(members, style, level, tail);
    }
  }

  // ---------------------------------------------------------------- the theorems

  /**
   * Both printers, with any indentation made of white space, are undone by the parser as
   * far as the text can tell: all of the tree comes back, numbers outside the grammar as
   * null, unless some string contains U+001F, and then nothing does.
   */
  lemma DecodeOfEmit(j: Json, style: Style)
    requires Clean(j) && BlankStyle(style)
    ensures Decode(Emit(j, style, 0)) == if Separated(j) then None else Some(Written(j))
  {
    var e := Emit(j, style, 0);
    assert e + [] == e;
    ValueReadsBack(j, style, 0, []);
    EmitStart(j, style, 0);
    assert SkipSpace(e) == e && SkipSpace([]) == [];
  }

  /** The round trip holds for exactly the trees without U+001F and with numbers of the grammar. */
  lemma RoundTripExactly(j: Json, style: Style)
    requires Clean(j) && BlankStyle(style)
    ensures Decode(Emit(j, style, 0)) == Some(j) <==> !Separated(j) && Numeric(j)
  {
    DecodeOfEmit(j, style);
    WrittenSame(j);
  }

  /** A one-character string shows that the exception is real. */
  lemma UnitSeparatorIsLost()
    ensures Clean(Str([UNIT_SEPARATOR])) && Decode(Emit(Str([UNIT_SEPARATOR]), Compact, 0)) == None
  {
    CharIsText([UNIT_SEPARATOR]);
    RoundTripExactly(Str([UNIT_SEPARATOR]), Compact);
    DecodeOfEmit(Str([UNIT_SEPARATOR]), Compact);
  }

  /** A number with a leading zero is written as null. */
  lemma BadNumberBecomesNull()
    ensures !Numeric(Num([48, 49])) && Decode(Emit(Num([48, 49]), Compact, 0)) == Some(Null)
  {
    LeadingZero();
    DecodeOfEmit(Num([48, 49]), Compact);
    hide Decode, Emit, N.Valid;
  }

  lemma LeadingZero()
    ensures !N.Valid([48, 49])
  {
    assert N.DigitCount([]) == 0;
  }

  /** The escape \u001F is decoded, and cannot be decoded again once written. */
  lemma EscapedSeparatorIsLost()
    ensures Decode([QUOTE, BACKSLASH, 117, 48, 48, 49, 70, QUOTE]) == Some(Str([UNIT_SEPARATOR]))
    ensures Decode(Emit(Str([UNIT_SEPARATOR]), Compact, 0)) == None
  {
    hide *;
    UnitSeparatorIsLost();
    EscapedSeparator();
    DecodedString([BACKSLASH, 117, 48, 48, 49, 70, QUOTE], [UNIT_SEPARATOR]);
    assert [QUOTE] + [BACKSLASH, 117, 48, 48, 49, 70, QUOTE] == [QUOTE, BACKSLASH, 117, 48, 48, 49, 70, QUOTE];
  }

  lemma DecodedString(r: seq<byte>, s: seq<byte>)
    requires ParseChars(r) == Some(Chars(s, []))
    ensures Decode([QUOTE] + r) == Some(Str(s))
  {
    StringValue(r, s);
    assert SkipSpace([QUOTE] + r) == [QUOTE] + r && SkipSpace([]) == [];
    hide ParseValue, SkipSpace, ParseChars;
  }

  lemma StringValue(r: seq<byte>, s: seq<byte>)
    requires ParseChars(r) == Some(Chars(s, []))
    ensures ParseValue([QUOTE] + r) == Some(Value(Str(s), []))
  {
    hide ParseChars, ParseItems, ParseMembers, ParseNumber, Literal, SkipSpace;
    assert ([QUOTE] + r)[1..] == r;
  }

  lemma EscapedSeparator()
    ensures ParseChars([BACKSLASH, 117, 48, 48, 49, 70, QUOTE]) == Some(Chars([UNIT_SEPARATOR], []))
  {
    var r: seq<byte> := [BACKSLASH, 117, 48, 48, 49, 70, QUOTE];
    SeparatorDigits();
    assert r[2..] == [48, 48, 49, 70] + [QUOTE] && r[2..][4..] == [QUOTE];
    assert NextChar(r) == Some(Chars([UNIT_SEPARATOR], [QUOTE]));
    assert ParseChars([QUOTE]) == Some(Chars([], []));
    assert [UNIT_SEPARATOR] + [] == [UNIT_SEPARATOR];
    hide ReadHex16, NextChar;
  }

  lemma SeparatorDigits()
    ensures ReadHex16([48, 48, 49, 70] + [QUOTE]) == Some(UNIT_SEPARATOR)
    ensures WriteChar(UNIT_SEPARATOR) == [UNIT_SEPARATOR]
  {
    ReadOfWriteHex16(UNIT_SEPARATOR, [QUOTE]);
  }

  // What the parser accepts can always be written again.

  lemma {:induction false} SkipKeeps(r: seq<byte>)
    requires 0 !in r
    ensures 0 !in SkipSpace(r)
  {
  }

  ghost predicate Sound(j: Json) { Clean(j) && Numeric(j) }

  ghost predicate SoundMember(m: Member) { CleanText(m.key) && Sound(m.value) }

  lemma SoundLists(items: seq<Json>, members: seq<Member>)
    ensures (forall i :: 0 <= i < |items| ==> Sound(items[i])) ==> Sound(Arr(items))
    ensures (forall i :: 0 <= i < |members| ==> SoundMember(members[i])) ==> Sound(Obj(members))
  {
    assert forall i :: 0 <= i < |items| && Sound(items[i]) ==> Clean(items[i]) && Numeric(items[i]);
    assert forall i :: 0 <= i < |members| && SoundMember(members[i]) ==>
      CleanText(members[i].key) && Clean(members[i].value) && Numeric(members[i].value);
  }

  lemma {:induction false} ParsedValue(r: seq<byte>)
    requires 0 !in r && ParseValue(r).Some?
    ensures Sound(ParseValue(r).value.value) && 0 !in ParseValue(r).value.rest
    decreases |r|, 0
  {
    if r[0] == OPEN_ARRAY {
      hide ParseItems, ParseMembers, ParseNumber, ParseChars, Literal, SkipSpace, Sound;
      var s := SkipSpace(r[1..]);
      SkipKeeps(r[1..]);
      if s[0] != CLOSE_ARRAY {
        ParsedItems(s);
        SoundLists(ParseItems(s).value.items, []);
      } else {
        SoundLists([], []);
      }
    } else if r[0] == OPEN_OBJECT {
      hide ParseItems, ParseMembers, ParseNumber, ParseChars, Literal, SkipSpace, Sound, SoundMember;
      var s := SkipSpace(r[1..]);
      SkipKeeps(r[1..]);
      if s[0] != CLOSE_OBJECT {
        ParsedMembers(s);
        SoundLists([], ParseMembers(s).value.members);
      } else {
        SoundLists([], []);
      }
    } else {
      ParsedScalar(r);
    }
  }

  lemma ParsedScalar(r: seq<byte>)
    requires 0 !in r && ParseValue(r).Some? && r[0] != OPEN_ARRAY && r[0] != OPEN_OBJECT
    ensures Sound(ParseValue(r).value.value) && 0 !in ParseValue(r).value.rest
  {
    if r[0] == QUOTE {
      ParsedString(r);
    } else if r[0] == 110 || r[0] == 102 || r[0] == 116 {
      ParsedLiteral(r);
    } else {
      ParsedNumber(r);
    }
    hide ParseValue, Sound;
  }

  lemma ParsedString(r: seq<byte>)
    requires 0 !in r && ParseValue(r).Some? && r[0] == QUOTE
    ensures Sound(ParseValue(r).value.value) && 0 !in ParseValue(r).value.rest
  {
    hide ParseItems, ParseMembers, ParseNumber, ParseChars, Literal, SkipSpace;
    ParsedText(r[1..]);
  }

  lemma ParsedLiteral(r: seq<byte>)
    requires 0 !in r && ParseValue(r).Some? && (r[0] == 110 || r[0] == 102 || r[0] == 116)
    ensures Sound(ParseValue(r).value.value) && 0 !in ParseValue(r).value.rest
  {
    hide ParseItems, ParseMembers, ParseNumber, ParseChars, SkipSpace;
  }

  lemma ParsedNumber(r: seq<byte>)
    requires 0 !in r && ParseValue(r).Some? && r[0] != OPEN_ARRAY && r[0] != OPEN_OBJECT && r[0] != QUOTE
    requires r[0] != 110 && r[0] != 102 && r[0] != 116
    ensures Sound(ParseValue(r).value.value) && 0 !in ParseValue(r).value.rest
  {
    hide ParseValue, ParseNumber, Sound;
    OtherIsNumber(r);
    TakenNumber(r);
  }

  lemma TakenNumber(r: seq<byte>)
    requires 0 !in r && ParseNumber(r).Some?
    ensures Sound(ParseNumber(r).value.value) && 0 !in ParseNumber(r).value.rest
  {
    hide N.NumberLen, N.Valid;
    N.NumberTaken(r);
    CleanSuffix(r, N.NumberLen(r).value);
  }

  lemma CleanSuffix(r: seq<byte>, n: nat)
    requires 0 !in r && n <= |r|
    ensures 0 !in r[n..]
  {
  }

  lemma {:induction false} ParsedItems(r: seq<byte>)
    requires 0 !in r && ParseItems(r).Some?
    ensures forall i :: 0 <= i < |ParseItems(r).value.items| ==> Sound(ParseItems(r).value.items[i])
    ensures 0 !in ParseItems(r).value.rest
    decreases |r|, 1
  {
    hide ParseValue, SkipSpace, Sound;
    ParsedValue(r);
    var s := SkipSpace(ParseValue(r).value.rest);
    SkipKeeps(ParseValue(r).value.rest);
    if s[0] == COMMA {
      SkipKeeps(s[1..]);
      ParsedItems(SkipSpace(s[1..]));
    }
  }

  lemma ParsedKey(r: seq<byte>)
    requires 0 !in r && ParseKey(r).Some?
    ensures CleanText(ParseKey(r).value.text) && 0 !in ParseKey(r).value.rest
  {
    hide ParseChars, SkipSpace, CharLen;
    ParsedText(r[1..]);
    SkipKeeps(ParseChars(r[1..]).value.rest);
    SkipKeeps(SkipSpace(ParseChars(r[1..]).value.rest)[1..]);
  }

  lemma {:induction false} ParsedMembers(r: seq<byte>)
    requires 0 !in r && ParseMembers(r).Some?
    ensures forall i :: 0 <= i < |ParseMembers(r).value.members| ==> SoundMember(ParseMembers(r).value.members[i])
    ensures 0 !in ParseMembers(r).value.rest
    decreases |r|, 1
  {
    hide ParseValue, ParseKey, SkipSpace, Sound, CleanText;
    ParsedKey(r);
    var k := ParseKey(r).value;
    ParsedValue(k.rest);
    var v := ParseValue(k.rest).value;
    var s := SkipSpace(v.rest);
    SkipKeeps(v.rest);
    if s[0] == COMMA {
      SkipKeeps(s[1..]);
      ParsedMembers(SkipSpace(s[1..]));
    }
  }

  /** A decoded tree meets the demands of emit_string, and its numbers are kept. */
  lemma DecodedIsSound(text: seq<byte>)
    requires 0 !in text && Decode(text).Some?
    ensures Clean(Decode(text).value) && Numeric(Decode(text).value)
  {
    SkipKeeps(text);
    ParsedValue(SkipSpace(text));
  }

  /** Decoding, writing in any style and decoding again gives the same tree or, after \u001F, nothing. */
  lemma DecodeEmitDecode(text: seq<byte>, style: Style)
    requires 0 !in text && Decode(text).Some? && BlankStyle(style)
    ensures var j := Decode(text).value;
            Decode(Emit(j, style, 0)) == if Separated(j) then None else Some(j)
  {
    DecodedIsSound(text);
    DecodeOfEmit(Decode(text).value, style);
    WrittenSame(Decode(text).value);
  }
}
