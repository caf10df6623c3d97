/** JSON texts: what json_decode reads, and what json_encode and json_stringify write. */
module JsonText {
  import opened Bytes
  import opened Utf8
  import opened JsonStrings
  import N = JsonNumbers

  /** A number is its lexeme; objects keep the order of their members, and duplicate keys. */
  datatype Json =
    | Null
    | Bool(b: bool)
    | Str(text: seq<byte>)
    | Num(lexeme: seq<byte>)
    | Arr(items: seq<Json>)
    | Obj(members: seq<Member>)

  datatype Member = Member(key: seq<byte>, value: Json)

  const COMMA: byte := 44
  const COLON: byte := 58
  const OPEN_ARRAY: byte := 91
  const CLOSE_ARRAY: byte := 93
  const OPEN_OBJECT: byte := 123
  const CLOSE_OBJECT: byte := 125

  const NULL: seq<byte> := [110, 117, 108, 108]
  const TRUE: seq<byte> := [116, 114, 117, 101]
  const FALSE: seq<byte> := [102, 97, 108, 115, 101]

  // ---------------------------------------------------------------- reading

  datatype Value = Value(value: Json, rest: seq<byte>)
  datatype Items = Items(items: seq<Json>, rest: seq<byte>)
  datatype Members = Members(members: seq<Member>, rest: seq<byte>)

  predicate IsSpace(c: byte) { c == 9 || c == 10 || c == 13 || c == 32 }

  function SkipSpace(r: seq<byte>): (s: seq<byte>)
    ensures |s| <= |r| && s == r[|r| - |s|..]
    ensures s != [] ==> !IsSpace(s[0])
  {
    if r != [] && IsSpace(r[0]) then
      var s := SkipSpace(r[1..]);
      assert r[1..][|r| - 1 - |s|..] == r[|r| - |s|..];
      s
    else r
  }

  function Literal(r: seq<byte>, text: seq<byte>, v: Json): (o: Option<Value>)
    requires text != []
    ensures o.Some? ==> |o.value.rest| < |r|
  {
    if text <= r then Some(Value(v, r[|text|..])) else None
  }

  function ParseNumber(r: seq<byte>): (o: Option<Value>)
    ensures o.Some? ==> |o.value.rest| < |r|
  {
    var n := N.NumberLen(r);
    if n.None? then None else Some(Value(Num(r[..n.value]), r[n.value..]))
  }

  /** parse_value: the value r starts with, and what follows it. */
  function ParseValue(r: seq<byte>): (o: Option<Value>)
    ensures o.Some? ==> |o.value.rest| < |r|
    decreases |r|, 0
  {
    if r == [] then None
    else if r[0] == 110 then Literal(r, NULL, Null)
    else if r[0] == 102 then Literal(r, FALSE, Bool(false))
    else if r[0] == 116 then Literal(r, TRUE, Bool(true))
    else if r[0] == QUOTE then
      var c := ParseChars(r[1..]);
      if c.None? then None else Some(Value(Str(c.value.text), c.value.rest))
    else if r[0] == OPEN_ARRAY then
      var s := SkipSpace(r[1..]);
      if s != [] && s[0] == CLOSE_ARRAY then Some(Value(Arr([]), s[1..]))
      else
        var items := ParseItems(s);
        if items.None? then None else Some(Value(Arr(items.value.items), items.value.rest))
    else if r[0] == OPEN_OBJECT then
      var s := SkipSpace(r[1..]);
      if s != [] && s[0] == CLOSE_OBJECT then Some(Value(Obj([]), s[1..]))
      else
        var members := ParseMembers(s);
        if members.None? then None else Some(Value(Obj(members.value.members), members.value.rest))
    else ParseNumber(r)
  }

  /** The loop of parse_array: elements up to the closing bracket. */
  function ParseItems(r: seq<byte>): (o: Option<Items>)
    ensures o.Some? ==> |o.value.rest| < |r|
    decreases |r|, 1
  {
    var v := ParseValue(r);
    if v.None? then None
    else
      var s := SkipSpace(v.value.rest);
      if s == [] then None
      else if s[0] == CLOSE_ARRAY then Some(Items([v.value.value], s[1..]))
      else if s[0] != COMMA then None
      else
        var more := ParseItems(SkipSpace(s[1..]));
        if more.None? then None else Some(Items([v.value.value] + more.value.items, more.value.rest))
  }

  /** A key, the colon, and the space around it. */
  function ParseKey(r: seq<byte>): (o: Option<Chars>)
    ensures o.Some? ==> |o.value.rest| < |r|
  {
    if r == [] || r[0] != QUOTE || ParseChars(r[1..]).None? then None
    else
      var s := SkipSpace(ParseChars(r[1..]).value.rest);
      if s == [] || s[0] != COLON then None
      else Some(Chars(ParseChars(r[1..]).value.text, SkipSpace(s[1..])))
  }

  /** The loop of parse_object: members up to the closing brace. */
  function ParseMembers(r: seq<byte>): (o: Option<Members>)
    ensures o.Some? ==> |o.value.rest| < |r|
    decreases |r|, 1
  {
    var k := ParseKey(r);
    if k.None? then None
    else
      var v := ParseValue(k.value.rest);
      if v.None? then None
      else
        var m, s := Member(k.value.text, v.value.value), SkipSpace(v.value.rest);
        if s == [] then None
        else if s[0] == CLOSE_OBJECT then Some(Members([m], s[1..]))
        else if s[0] != COMMA then None
        else
          var more := ParseMembers(SkipSpace(s[1..]));
          if more.None? then None else Some(Members([m] + more.value.members, more.value.rest))
  }

  /** json_decode; None is the NULL it returns for a text it refuses. */
  function Decode(text: seq<byte>): Option<Json> {
    var v := ParseValue(SkipSpace(text));
    if v.None? || SkipSpace(v.value.rest) != [] then None else Some(v.value.value)
  }

  // ---------------------------------------------------------------- writing

  /** json_encode writes compactly; json_stringify repeats space once a level. */
  datatype Style = Compact | Indented(space: seq<byte>)

  function Repeat(space: seq<byte>, n: nat): seq<byte> {
    if n == 0 then [] else space + Repeat(space, n - 1)
  }

  function NewLine(style: Style, level: nat): seq<byte> {
    if style.Compact? then [] else [10] + Repeat(style.space, level)
  }

  function AfterKey(style: Style): seq<byte> {
    if style.Compact? then [COLON] else [COLON, 32]
  }

  function EmitNumber(lexeme: seq<byte>): seq<byte> {
    if N.Valid(lexeme) then lexeme else NULL
  }

  function Emit(j: Json, style: Style, level: nat): seq<byte>
    decreases j, 1
  {
    match j
    case Null => NULL
    case Bool(b) => if b then TRUE else FALSE
    case Str(text) => EmitString(text)
    case Num(lexeme) => EmitNumber(lexeme)
    case Arr(items) =>
      if items == [] then [OPEN_ARRAY, CLOSE_ARRAY]
      else [OPEN_ARRAY] + NewLine(style, level + 1) + EmitItems(items, style, level + 1)
           + NewLine(style, level) + [CLOSE_ARRAY]
    case Obj(members) =>
      if members == [] then [OPEN_OBJECT, CLOSE_OBJECT]
      else [OPEN_OBJECT] + NewLine(style, level + 1) + EmitMembers(members, style, level + 1)
           + NewLine(style, level) + [CLOSE_OBJECT]
  }

  function EmitItems(items: seq<Json>, style: Style, level: nat): seq<byte>
    requires items != []
    decreases items, 0
  {
    Emit(items[0], style, level) +
    if |items| == 1 then [] else [COMMA] + NewLine(style, level) + EmitItems(items[1..], style, level)
  }

  function EmitMembers(members: seq<Member>, style: Style, level: nat): seq<byte>
    requires members != []
    decreases members, 0
  {
    EmitString(members[0].key) + AfterKey(style) + Emit(members[0].value, style, level) +
    if |members| == 1 then [] else [COMMA] + NewLine(style, level) + EmitMembers(members[1..], style, level)
  }

  // ---------------------------------------------------------------- what survives

  predicate CleanText(s: seq<byte>) { IsText(s) && 0 !in s }

  /** Strings and keys are C strings of well-formed UTF-8, as emit_string and json_check demand. */
  predicate Clean(j: Json) {
    match j
    case Str(text) => CleanText(text)
    case Arr(items) => forall i :: 0 <= i < |items| ==> Clean(items[i])
    case Obj(members) =>
      forall i :: 0 <= i < |members| ==> CleanText(members[i].key) && Clean(members[i].value)
    case _ => true
  }

  /** Some string or key contains U+001F. */
  predicate Separated(j: Json) {
    match j
    case Str(text) => UNIT_SEPARATOR in text
    case Arr(items) => exists i :: 0 <= i < |items| && Separated(items[i])
    case Obj(members) =>
      exists i :: 0 <= i < |members| && (UNIT_SEPARATOR in members[i].key || Separated(members[i].value))
    case _ => false
  }

  /** Every number is a lexeme of the grammar. */
  predicate Numeric(j: Json) {
    match j
    case Num(lexeme) => N.Valid(lexeme)
    case Arr(items) => forall i :: 0 <= i < |items| ==> Numeric(items[i])
    case Obj(members) => forall i :: 0 <= i < |members| ==> Numeric(members[i].value)
    case _ => true
  }

  /** The tree with null for every number that is not in the grammar. */
  function Written(j: Json): Json {
    match j
    case Num(lexeme) => if N.Valid(lexeme) then j else Null
    case Arr(items) => Arr(seq(|items|, i requires 0 <= i < |items| => Written(items[i])))
    case Obj(members) =>
      Obj(seq(|members|, i requires 0 <= i < |members| => Member(members[i].key, Written(members[i].value))))
    case _ => j
  }

  lemma {:induction false} WrittenSame(j: Json)
    ensures Written(j) == j <==> Numeric(j)
  {
    match j
    case Arr(items) =>
      forall i | 0 <= i < |items| ensures Written(items[i]) == items[i] <==> Numeric(items[i]) {
        WrittenSame(items[i]);
      }
      assert forall i :: 0 <= i < |items| ==> Written(j).items[i] == Written(items[i]);
    case Obj(members) =>
      forall i | 0 <= i < |members|
        ensures Written(members[i].value) == members[i].value <==> Numeric(members[i].value)
      {
        WrittenSame(members[i].value);
      }
      assert forall i :: 0 <= i < |members| ==>
          Written(j).members[i] == Member(members[i].key, Written(members[i].value));
    case _ =>
  }

  predicate Blank(s: seq<byte>) { forall i :: 0 <= i < |s| ==> IsSpace(s[i]) }

  predicate BlankStyle(style: Style) { style.Indented? ==> Blank(style.space) }

  lemma {:induction false} RepeatBlank(space: seq<byte>, n: nat)
    requires Blank(space)
    ensures Blank(Repeat(space, n))
  {
    if n > 0 {
      RepeatBlank(space, n - 1);
    }
  }

  lemma NewLineBlank(style: Style, level: nat)
    requires BlankStyle(style)
    ensures Blank(NewLine(style, level))
  {
    if style.Indented? {
      RepeatBlank(style.space, level);
    }
  }

  lemma {:induction false} SkipBlank(gap: seq<byte>, s: seq<byte>)
    requires Blank(gap) && (s == [] || !IsSpace(s[0]))
    ensures SkipSpace(gap + s) == s
  {
    hide SkipSpace;
    SkipStep(gap + s);
    if gap == [] {
      assert gap + s == s;
    } else {
      SkipBlank(gap[1..], s);
      assert (gap + s)[1..] == gap[1..] + s;
    }
  }

  lemma SkipStep(r: seq<byte>)
    ensures SkipSpace(r) == if r != [] && IsSpace(r[0]) then SkipSpace(r[1..]) else r
  {
    hide IsSpace;
  }

  /** A written value starts with a character that is no space and no closing bracket. */
  lemma EmitStart(j: Json, style: Style, level: nat)
    ensures var e := Emit(j, style, level);
            e != [] && !IsSpace(e[0]) && e[0] != CLOSE_ARRAY && e[0] != CLOSE_OBJECT
  {
    if j.Num? && N.Valid(j.lexeme) {
      NumberStart(j.lexeme);
    }
  }

  lemma NumberStart(s: seq<byte>)
    requires N.Valid(s)
    ensures s != [] && (s[0] == 45 || N.IsDigit(s[0]))
  {
    if s != [] && s[0] != 45 {
      assert s[0..] == s;
      assert N.IntLen(s).Some?;
    }
  }
}
