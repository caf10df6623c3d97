/**
 * The parser of json.c over a C string z and a cursor. The flag out says whether the
 * caller wants the value (json_decode) or only the verdict (json_validate). A value is
 * built as linked nodes among those of f, and whatever was built is freed on a failure.
 */
module JsonParser {
  import opened Bytes
  import opened Utf8
  import opened JsonStrings
  import opened JsonText
  import opened StringBuffer
  import opened JsonTree
  import opened JsonDelete
  import opened JsonLinked
  import N = JsonNumbers

  /** The cursor advances by the part of the string a function on its rest has consumed. */
  lemma RestAt(z: seq<byte>, i: nat, k: nat)
    requires i + k < |z|
    ensures Rest(z, i)[k..] == Rest(z, i + k)
    ensures k > 0 ==> Rest(z, i)[0] == z[i]
  {
  }

  lemma RestEnd(z: seq<byte>, i: nat)
    requires CString(z) && i < |z|
    ensures Rest(z, i) == [] <==> z[i] == 0
    ensures Rest(z, i) != [] ==> Rest(z, i)[0] == z[i] && Rest(z, i)[1..] == Rest(z, i + 1)
  {
  }

  lemma SkipTurn(z: seq<byte>, i: nat)
    requires CString(z) && i < |z|
    ensures IsSpace(z[i]) ==> i + 1 < |z| && SkipSpace(Rest(z, i)) == SkipSpace(Rest(z, i + 1))
    ensures !IsSpace(z[i]) ==> SkipSpace(Rest(z, i)) == Rest(z, i)
  {
    RestEnd(z, i);
  }

  /** skip_space. */
  method Skip(z: seq<byte>, start: nat) returns (i: nat)
    requires CString(z) && start < |z|
    ensures start <= i < |z| && Rest(z, i) == SkipSpace(Rest(z, start))
  {
    hide SkipSpace;
    i := start;
    while IsSpace(z[i])
      invariant start <= i < |z| && SkipSpace(Rest(z, start)) == SkipSpace(Rest(z, i))
      decreases |z| - i
    {
      SkipTurn(z, i);
      i := i + 1;
    }
    SkipTurn(z, i);
  }

  /** expect_literal. */
  method ExpectLiteral(z: seq<byte>, start: nat, text: seq<byte>) returns (ok: bool)
    requires CString(z) && start < |z| && 0 !in text
    ensures ok <==> text <= Rest(z, start)
  {
    var k := 0;
    while k < |text|
      invariant k <= |text| && start + k < |z| && forall j :: 0 <= j < k ==> text[j] == z[start + j]
    {
      if z[start + k] != text[k] {
        PrefixAt(z, start, text, k);
        return false;
      }
      k := k + 1;
    }
    assert Rest(z, start)[..|text|] == text;
    return true;
  }

  lemma PrefixAt(z: seq<byte>, start: nat, text: seq<byte>, k: nat)
    requires CString(z) && start + k < |z| && k < |text|
    ensures text <= Rest(z, start) ==> z[start + k] == text[k]
  {
    if text <= Rest(z, start) {
      assert Rest(z, start)[k] == z[start + k] && Rest(z, start)[..|text|][k] == text[k];
    }
  }

  /** The do-while loops over digits in parse_number. */
  method SkipDigits(z: seq<byte>, start: nat) returns (i: nat)
    requires CString(z) && start < |z|
    ensures start <= i < |z| && i - start == N.DigitCount(Rest(z, start))
  {
    i := start;
    while N.IsDigit(z[i])
      invariant start <= i < |z|
      invariant N.DigitCount(Rest(z, start)) == i - start + N.DigitCount(Rest(z, i))
      decreases |z| - i
    {
      RestEnd(z, i);
      i := i + 1;
    }
    RestEnd(z, i);
  }

  /** parse_number: the end of the number, or None. */
  method ParseNumberAt(z: seq<byte>, start: nat) returns (end: Option<nat>)
    requires CString(z) && start < |z|
    ensures match N.NumberLen(Rest(z, start))
            case None => end == None
            case Some(n) => end == Some(start + n)
  {
    hide N.IntLen, N.FracLen, N.ExpLen;
    var i := start;
    RestEnd(z, i);
    if z[i] == 45 {
      i := i + 1;
    }
    assert Rest(z, start)[i - start..] == Rest(z, i);
    var j := IntAt(z, i);
    if j.None? {
      return None;
    }
    assert Rest(z, start)[j.value - start..] == Rest(z, j.value);
    var k := FracAt(z, j.value);
    if k.None? {
      return None;
    }
    assert Rest(z, start)[k.value - start..] == Rest(z, k.value);
    end := ExpAt(z, k.value);
  }

  method IntAt(z: seq<byte>, i: nat) returns (end: Option<nat>)
    requires CString(z) && i < |z|
    ensures match N.IntLen(Rest(z, i)) case None => end == None case Some(n) => end == Some(i + n)
  {
    RestEnd(z, i);
    if z[i] == 48 {
      return Some(i + 1);
    }
    if !N.IsDigit(z[i]) {
      return None;
    }
    var j := SkipDigits(z, i);
    return Some(j);
  }

  method FracAt(z: seq<byte>, i: nat) returns (end: Option<nat>)
    requires CString(z) && i < |z|
    ensures match N.FracLen(Rest(z, i)) case None => end == None case Some(n) => end == Some(i + n)
  {
    RestEnd(z, i);
    if z[i] != 46 {
      return Some(i);
    }
    RestEnd(z, i + 1);
    var j := SkipDigits(z, i + 1);
    if !N.IsDigit(z[i + 1]) {
      return None;
    }
    return Some(j);
  }

  method ExpAt(z: seq<byte>, i: nat) returns (end: Option<nat>)
    requires CString(z) && i < |z|
    ensures match N.ExpLen(Rest(z, i)) case None => end == None case Some(n) => end == Some(i + n)
  {
    RestEnd(z, i);
    if z[i] != 69 && z[i] != 101 {
      return Some(i);
    }
    var d := i + 1;
    RestEnd(z, d);
    if z[d] == 43 || z[d] == 45 {
      d := d + 1;
    }
    assert Rest(z, i)[d - i..] == Rest(z, d);
    RestEnd(z, d);
    var j := SkipDigits(z, d);
    if !N.IsDigit(z[d]) {
      return None;
    }
    return Some(j);
  }

  // ---------------------------------------------------------------- strings

  /** \u and what follows: the scalar value and the new cursor, or None. */
  method ParseUnicode(z: seq<byte>, s: nat) returns (u: Option<nat>, next: nat)
    requires CString(z) && s < |z|
    ensures match UnicodeEscape(Rest(z, s))
            case None => u == None
            case Some(c) =>
              u.Some? && IsScalar(u.value) && c.text == WriteChar(u.value) && s < next < |z| && Rest(z, next) == c.rest
  {
    ghost var r := Rest(z, s);
    next := s;
    var uc := ParseHex16(z, s);
    if uc.None? {
      return None, next;
    }
    next := s + 4;
    RestAt(z, s, 4);
    if 0xD800 <= uc.value <= 0xDFFF {
      RestEnd(z, next);
      if z[next] != BACKSLASH {
        return None, next;
      }
      RestEnd(z, next + 1);
      assert r[4..][1..] == r[5..];
      if z[next + 1] != 117 {
        return None, next;
      }
      RestAt(z, s, 6);
      var lc := ParseHex16(z, next + 2);
      if lc.None? {
        return None, next;
      }
      u := FromSurrogates(uc.value, lc.value);
      next := next + 6;
      RestAt(z, s, 10);
      return u, next;
    }
    if uc.value == 0 {
      return None, next;
    }
    ReadOfWrite(uc.value);
    return Some(uc.value), next;
  }

  /** One turn of the loop of parse_string: at most four octets are written at b. */
  method ParseChar(z: seq<byte>, s: nat, buf: array<byte>, b: nat) returns (ok: bool, next: nat, end: nat)
    requires CString(z) && s < |z| && z[s] != QUOTE && b + 4 <= buf.Length
    modifies buf
    ensures ok == (z[s] != 0 && NextChar(Rest(z, s)).Some?)
    ensures ok ==> s < next < |z| && Rest(z, next) == NextChar(Rest(z, s)).value.rest
    ensures ok ==> b <= end <= b + 4 && buf[..end] == old(buf[..b]) + NextChar(Rest(z, s)).value.text
  {
    ok, next, end := false, s, b;
    RestEnd(z, s);
    var c := z[s];
    if c == BACKSLASH {
      RestEnd(z, s + 1);
      RestAt(z, s, 1);
      if z[s + 1] == 0 {
        return;
      }
      RestAt(z, s, 2);
      assert Rest(z, s)[1] == z[s + 1];
      if z[s + 1] == 117 {
        var u;
        u, next := ParseUnicode(z, s + 2);
        if u.None? {
          return;
        }
        end := PutAt(buf, b, WriteChar(u.value));
        ok := true;
      } else {
        var letter := LetterEscape(z[s + 1]);
        if letter.None? {
          return;
        }
        next := s + 2;
        end := PutAt(buf, b, [letter.value]);
        ok := true;
      }
    } else if c <= 0x1F {
      return;
    } else {
      var len := ValidateCz(z, s);
      if len == 0 {
        return;
      }
      next := s + len;
      RestAt(z, s, len);
      assert z[s..s + len] == Rest(z, s)[..len];
      end := PutAt(buf, b, z[s..s + len]);
      ok := true;
    }
  }

  /** parse_string. */
  method ParseString(z: seq<byte>, start: nat, out: bool) returns (ok: bool, end: nat, text: seq<byte>)
    requires CString(z) && start < |z|
    ensures ok == (z[start] == QUOTE && ParseChars(Rest(z, start + 1)).Some?)
    ensures ok ==> start < end < |z| && Rest(z, end) == ParseChars(Rest(z, start + 1)).value.rest
    ensures ok && out ==> text == ParseChars(Rest(z, start + 1)).value.text
  {
    ok, end, text := false, start, [];
    if z[start] != QUOTE {
      return;
    }
    var s := start + 1;
    var sb := new SB();
    var throwaway := new byte[4];
    if out {
      sb.Need(4);
    }
    ghost var r, read := Rest(z, s), [];
    PrefixedTwice([], [], ParseChars(r));
    while z[s] != QUOTE
      invariant start < s < |z| && fresh(sb) && fresh(sb.mem) && sb.Valid() && throwaway.Length == 4
      invariant out ==> sb.end - sb.cur >= 4 && sb.Contents() == read
      invariant ParseChars(r) == Prefixed(read, ParseChars(Rest(z, s)))
      invariant 0 !in read
      decreases |z| - s
    {
      RestEnd(z, s);
      ghost var rest := Rest(z, s);
      var good, next, b;
      if out {
        good, next, b := ParseChar(z, s, sb.mem, sb.cur);
      } else {
        good, next, b := ParseChar(z, s, throwaway, 0);
      }
      ParseCharsTurn(rest);
      if !good {
        return;
      }
      NoNul(z, s);
      PrefixedTwice(read, NextChar(rest).value.text, ParseChars(Rest(z, next)));
      read := read + NextChar(rest).value.text;
      s := next;
      if out {
        sb.cur := b;
        sb.Need(4);
      }
    }
    RestEnd(z, s);
    assert ParseChars(Rest(z, s)) == Some(Chars([], Rest(z, s + 1)));
    ok, end := true, s + 1;
    if out {
      text := sb.Finish();
    }
  }

  ghost function Prefixed(text: seq<byte>, c: Option<Chars>): Option<Chars> {
    if c.None? then None else Some(Chars(text + c.value.text, c.value.rest))
  }

  lemma PrefixedTwice(a: seq<byte>, b: seq<byte>, c: Option<Chars>)
    ensures Prefixed(a, Prefixed(b, c)) == Prefixed(a + b, c)
    ensures Prefixed([], c) == c
  {
    if c.Some? {
      assert a + (b + c.value.text) == a + b + c.value.text;
      assert [] + c.value.text == c.value.text;
    }
  }

  lemma ParseCharsTurn(r: seq<byte>)
    ensures r == [] ==> ParseChars(r).None?
    ensures r != [] && r[0] != QUOTE ==>
              ParseChars(r) == if NextChar(r).None? then None
                               else Prefixed(NextChar(r).value.text, ParseChars(NextChar(r).value.rest))
  {
    hide NextChar;
  }

  lemma NoNul(z: seq<byte>, s: nat)
    requires CString(z) && s < |z| && Rest(z, s) != [] && NextChar(Rest(z, s)).Some?
    ensures 0 !in NextChar(Rest(z, s)).value.text
  {
    assert 0 !in Rest(z, s);
    CharOctets(NextChar(Rest(z, s)).value.text);
  }

  // ---------------------------------------------------------------- values

  /**
   * What a call of the parser leaves behind: the value it was asked for as a new tree beside
   * the nodes that were there, or, on a failure, nothing.
   */
  ghost predicate Outcome(kids0: Kids, keys0: Keys, kids: Kids, keys: Keys, out: bool, node: JsonNode?,
                          v: Option<Json>) {
    if out && v.Some? then node != null && Built(kids0, keys0, kids, keys, node, v.value)
    else kids == kids0 && keys == keys0
  }

  ghost function ValueOf(v: Option<Value>): Option<Json> {
    if v.None? then None else Some(v.value.value)
  }

  /** A node without children for the value just read. */
  method MakeLeaf(f: Forest, v: Json) returns (node: JsonNode)
    requires f.Valid() && !v.Arr? && !v.Obj?
    modifies f
    ensures f.Valid() && fresh(f.kids.Keys - old(f.kids.Keys)) && f.live == old(f.live)
    ensures Built(old(f.kids), old(f.Keys()), f.kids, f.Keys(), node, v)
    ensures f.Loose() == old(f.Loose()) - (if v.Str? then 1 else 0)
  {
    hide AllLinked, Ranked, Ledger, StateOf, KeyMap, Owned, Built;
    ghost var kids0, keys0 := f.kids, f.Keys();
    AllClosed(f.State(), kids0, f.rank);
    node := f.MakeNode(Leaf(v));
    BuiltLeaf(kids0, keys0, node, v);
  }

  /** json_delete on a failure: what has been built since is gone. */
  method Discard(f: Forest, root: JsonNode, ghost kids0: Kids, ghost keys0: Keys)
    requires f.Valid() && Closed(kids0, keys0) && Grown(kids0, keys0, f.kids, f.Keys(), root)
    modifies f, f.kids.Keys
    ensures f.Valid() && f.kids == kids0 && f.Keys() == keys0 && f.Loose() == old(f.Loose())
  {
    hide AllLinked, Ranked, Ledger, StateOf, KeyMap, Owned, Under, Elements;
    AllClosed(f.State(), f.kids, f.rank);
    RootOfGrown(f.State(), f.kids, f.rank, kids0, keys0, f.Keys(), root);
    StateAt(f.kids.Keys, root);
    GrownUndone(kids0, keys0, f.kids, f.Keys(), f.rank, root);
    Delete(f, root, 0);
  }

  lemma RootOfGrown(mem: Mem, kids: Kids, rank: Rank, kids0: Kids, keys0: Keys, keys: Keys, root: JsonNode)
    requires AllLinked(mem, kids) && Ranked(kids, rank) && Grown(kids0, keys0, kids, keys, root)
    ensures mem[root].parent == null && Above(mem, kids, rank, root) == {root}
  {
    Unlisted(mem, kids, rank, root);
  }

  /** json_append_element and append_member for an array or object under construction. */
  method AddChild(f: Forest, ret: JsonNode, e: JsonNode, key: Option<seq<byte>>, ghost x: Json, ghost vals: seq<Json>,
                  ghost kids0: Kids, ghost keys0: Keys, ghost kids1: Kids, ghost keys1: Keys)
    requires f.Valid() && Closed(kids0, keys0) && Closed(kids1, keys1)
    requires Grown(kids0, keys0, kids1, keys1, ret) && Built(kids1, keys1, f.kids, f.Keys(), e, x)
    requires Holds(kids0, kids1, keys1, ret, vals)
    requires ret.tag == if key.Some? then Object else Array
    modifies f, f.kids.Keys
    ensures f.Valid() && Grown(kids0, keys0, f.kids, f.Keys(), ret) && Holds(kids0, f.kids, f.Keys(), ret, vals + [x])
    ensures f.kids == old(f.kids)[ret := old(f.kids)[ret] + [e]] && f.Keys() == old(f.Keys())[e := key]
    ensures f.Loose() == old(f.Loose()) - (if key.Some? then 1 else 0)
  {
    hide AllLinked, Ranked, Ledger, StateOf, KeyMap, Owned, Grown, Built, Holds, Closed, Above;
    ghost var mem, kids2, keys2 := f.State(), f.kids, f.Keys();
    AllClosed(mem, kids2, f.rank);
    BuiltIsGrown(kids1, keys1, kids2, keys2, e, x);
    GrownAppend(kids0, keys0, kids1, keys1, ret, kids2, keys2, e, key);
    HoldsAppend(kids0, keys0, kids1, keys1, ret, vals, kids2, keys2, e, key, x);
    ReadyToAppend(mem, kids2, f.rank, kids0, keys0, kids1, keys1, ret, keys2, e);
    StateAt(kids2.Keys, ret);
    StateAt(kids2.Keys, e);
    f.AppendNode(ret, e, key);
  }

  lemma BuiltIsGrown(kids0: Kids, keys0: Keys, kids: Kids, keys: Keys, e: JsonNode, x: Json)
    requires Built(kids0, keys0, kids, keys, e, x)
    ensures Grown(kids0, keys0, kids, keys, e) && e in kids
  {
  }

  lemma StaysUnlisted(kids0: Kids, keys0: Keys, kids1: Kids, keys1: Keys, ret: JsonNode, kids: Kids, keys: Keys,
                      e: JsonNode)
    requires Closed(kids1, keys1) && Grown(kids0, keys0, kids1, keys1, ret) && Grown(kids1, keys1, kids, keys, e)
    ensures ret in kids && e in kids && e != ret && forall m :: m in kids ==> ret !in kids[m] && e !in kids[m]
  {
    hide Listed;
    forall m | m in kids ensures ret !in kids[m] {
      assert ret in kids1 && (m in kids1 ==> kids[m] == kids1[m]);
    }
    hide Listed;
  }

  lemma ReadyToAppend(mem: Mem, kids: Kids, rank: Rank, kids0: Kids, keys0: Keys, kids1: Kids, keys1: Keys,
                      ret: JsonNode, keys: Keys, e: JsonNode)
    requires AllLinked(mem, kids) && Ranked(kids, rank) && Closed(kids1, keys1)
    requires Grown(kids0, keys0, kids1, keys1, ret) && Grown(kids1, keys1, kids, keys, e)
    ensures ret in kids && e in kids && mem[e].parent == null && e !in Above(mem, kids, rank, ret)
    ensures mem[ret].tail != null ==> mem[ret].tail in kids
  {
    StaysUnlisted(kids0, keys0, kids1, keys1, ret, kids, keys, e);
    hide *;
    RootAlone(mem, kids, rank, e);
    RootAlone(mem, kids, rank, ret);
    TailIn(mem, kids, ret);
  }

  lemma RootAlone(mem: Mem, kids: Kids, rank: Rank, n: JsonNode)
    requires AllLinked(mem, kids) && Ranked(kids, rank) && n in kids && forall m :: m in kids ==> n !in kids[m]
    ensures n in mem && mem[n].parent == null && forall x :: x in Above(mem, kids, rank, n) ==> x == n
  {
    Unlisted(mem, kids, rank, n);
    hide Ranked, Above, Linked, Placed;
  }

  lemma TailIn(mem: Mem, kids: Kids, n: JsonNode)
    requires AllLinked(mem, kids) && n in kids
    ensures n in mem && (mem[n].tail != null ==> mem[n].tail in kids)
  {
    TailListed(mem, kids, n);
    hide Linked, Placed;
  }

  /** parse_value. The verdict and the cursor do not depend on out. */
  method ParseValueAt(f: Forest, z: seq<byte>, start: nat, out: bool) returns (ok: bool, end: nat, node: JsonNode?)
    requires CString(z) && start < |z| && f.Valid()
    modifies f, f.kids.Keys
    ensures f.Valid() && fresh(f.kids.Keys - old(f.kids.Keys)) && f.Loose() == old(f.Loose())
    ensures ok == ParseValue(Rest(z, start)).Some?
    ensures ok ==> start < end < |z| && Rest(z, end) == ParseValue(Rest(z, start)).value.rest
    ensures Outcome(old(f.kids), old(f.Keys()), f.kids, f.Keys(), out, node, ValueOf(ParseValue(Rest(z, start))))
    decreases |z| - start, 2
  {
    hide ParseItems, ParseMembers, SkipSpace, ParseChars, N.NumberLen, Built, AllLinked, Ranked, Ledger;
    hide StateOf, KeyMap, Owned;
    ok, end, node := false, start, null;
    RestEnd(z, start);
    var c := z[start];
    if c == OPEN_ARRAY {
      ok, end, node := ParseArrayAt(f, z, start, out);
    } else if c == OPEN_OBJECT {
      ok, end, node := ParseObjectAt(f, z, start, out);
    } else {
      var v;
      ok, end, v := ParseLeafAt(f, z, start, out);
      if ok && out {
        node := MakeLeaf(f, v);
      }
    }
  }

  /** The cases of parse_value that make no children; a string that is read is a new one. */
  method ParseLeafAt(f: Forest, z: seq<byte>, start: nat, out: bool) returns (ok: bool, end: nat, v: Json)
    requires CString(z) && start < |z| && z[start] != OPEN_ARRAY && z[start] != OPEN_OBJECT
    modifies f`live
    ensures ok == ParseValue(Rest(z, start)).Some?
    ensures ok ==> start < end < |z| && Rest(z, end) == ParseValue(Rest(z, start)).value.rest && !v.Arr? && !v.Obj?
    ensures ok && out ==> v == ParseValue(Rest(z, start)).value.value
    ensures f.live == old(f.live) + (if ok && out && v.Str? then 1 else 0)
  {
    hide ParseItems, ParseMembers, SkipSpace, ParseChars, N.NumberLen;
    ok, end, v := false, start, Null;
    RestEnd(z, start);
    var c := z[start];
    if c == 110 {
      ok, end, v := LiteralAt(z, start, NULL, Null);
    } else if c == 102 {
      ok, end, v := LiteralAt(z, start, FALSE, Bool(false));
    } else if c == 116 {
      ok, end, v := LiteralAt(z, start, TRUE, Bool(true));
    } else if c == QUOTE {
      var text;
      ok, end, text := ParseString(z, start, out);
      v := Str(text);
      if ok && out {
        f.live := f.live + 1;
      }
    } else {
      ok, end, v := NumberAt(z, start);
    }
  }

  method LiteralAt(z: seq<byte>, start: nat, text: seq<byte>, value: Json) returns (ok: bool, end: nat, v: Json)
    requires CString(z) && start < |z| && 0 !in text && text != []
    ensures match Literal(Rest(z, start), text, value)
            case None => !ok
            case Some(o) => ok && start < end < |z| && Rest(z, end) == o.rest && v == o.value
  {
    ok := ExpectLiteral(z, start, text);
    end, v := start, value;
    if ok {
      RestAt(z, start, |text|);
      end := start + |text|;
    }
  }

  method NumberAt(z: seq<byte>, start: nat) returns (ok: bool, end: nat, v: Json)
    requires CString(z) && start < |z|
    ensures match ParseNumber(Rest(z, start))
            case None => !ok
            case Some(o) => ok && start < end < |z| && Rest(z, end) == o.rest && v == o.value
  {
    hide N.NumberLen;
    var n := ParseNumberAt(z, start);
    if n.None? {
      return false, start, Null;
    }
    RestAt(z, start, n.value - start);
    assert z[start..n.value] == Rest(z, start)[..n.value - start];
    return true, n.value, Num(z[start..n.value]);
  }

  ghost function Before(items: seq<Json>, o: Option<Items>): Option<Items> {
    if o.None? then None else Some(Items(items + o.value.items, o.value.rest))
  }

  lemma BeforeTwice(a: seq<Json>, b: seq<Json>, o: Option<Items>)
    ensures Before(a, Before(b, o)) == Before(a + b, o) && Before([], o) == o
  {
    if o.Some? {
      assert a + (b + o.value.items) == a + b + o.value.items;
      assert [] + o.value.items == o.value.items;
    }
  }

  /** One turn of the loop of parse_array: after is what the closing bracket or comma is looked for in. */
  lemma ItemsTurn(r: seq<byte>, x: Json, after: seq<byte>)
    requires ParseValue(r).Some? && x == ParseValue(r).value.value && after == SkipSpace(ParseValue(r).value.rest)
    ensures after != [] && after[0] == CLOSE_ARRAY ==> ParseItems(r) == Some(Items([x], after[1..]))
    ensures after != [] && after[0] == COMMA ==> ParseItems(r) == Before([x], ParseItems(SkipSpace(after[1..])))
    ensures after == [] || (after[0] != CLOSE_ARRAY && after[0] != COMMA) ==> ParseItems(r).None?
  {
    hide ParseValue, SkipSpace;
  }

  lemma ItemsStop(r: seq<byte>)
    requires ParseValue(r).None?
    ensures ParseItems(r).None?
  {
    hide ParseValue;
  }

  /** parse_array; elements are appended to the array only if it is wanted. */
  method ParseArrayAt(f: Forest, z: seq<byte>, start: nat, out: bool) returns (ok: bool, end: nat, node: JsonNode?)
    requires CString(z) && start < |z| && z[start] == OPEN_ARRAY && f.Valid()
    modifies f, f.kids.Keys
    ensures f.Valid() && fresh(f.kids.Keys - old(f.kids.Keys)) && f.Loose() == old(f.Loose())
    ensures ok == ParseValue(Rest(z, start)).Some?
    ensures ok ==> start < end < |z| && Rest(z, end) == ParseValue(Rest(z, start)).value.rest
    ensures Outcome(old(f.kids), old(f.Keys()), f.kids, f.Keys(), out, node, ValueOf(ParseValue(Rest(z, start))))
    decreases |z| - start, 0
  {
    hide ParseValue, ParseItems, ParseMembers, SkipSpace, Rest, Built, Grown, Holds, Closed;
    hide AllLinked, Ranked, Ledger, StateOf, KeyMap, Owned;
    ghost var kids0, keys0 := f.kids, f.Keys();
    node := MakeParent(f, Array, out);
    RestEnd(z, start);
    var s := Skip(z, start + 1);
    ArrayOpens(Rest(z, start), Rest(z, s));
    RestEnd(z, s);
    if z[s] == CLOSE_ARRAY {
      if out {
        BuiltArray(kids0, keys0, f.kids, f.Keys(), node, []);
      }
      return true, s + 1, node;
    }
    ghost var items;
    ok, end, items := ParseElements(f, z, s, out, node, kids0, keys0);
    if out {
      if ok {
        BuiltArray(kids0, keys0, f.kids, f.Keys(), node, items);
      } else {
        Discard(f, node, kids0, keys0);
      }
    }
  }

  /** json_mkarray or json_mkobject, if the value is wanted. */
  method MakeParent(f: Forest, tag: Tag, out: bool) returns (node: JsonNode?)
    requires f.Valid() && !tag.Leaf?
    modifies f
    ensures f.Valid() && fresh(f.kids.Keys - old(f.kids.Keys)) && f.Loose() == old(f.Loose())
    ensures Closed(old(f.kids), old(f.Keys()))
    ensures out ==> node != null && node.tag == tag && UnderWay(old(f.kids), old(f.Keys()), f.kids, f.Keys(), node, [])
    ensures !out ==> node == null && f.kids == old(f.kids) && f.Keys() == old(f.Keys())
  {
    hide AllLinked, Ranked, Ledger, StateOf, KeyMap, Owned, Grown, Holds, Closed;
    ghost var kids0, keys0 := f.kids, f.Keys();
    AllClosed(f.State(), kids0, f.rank);
    node := null;
    if out {
      node := f.MakeNode(tag);
      GrownMade(kids0, keys0, node);
      HoldsNothing(kids0, f.kids, f.Keys(), node);
    }
  }

  /** The array or object ret beside the nodes that were there, with children for vals. */
  ghost predicate UnderWay(kids0: Kids, keys0: Keys, kids: Kids, keys: Keys, ret: JsonNode, vals: seq<Json>) {
    ret in kids && Grown(kids0, keys0, kids, keys, ret) && Holds(kids0, kids, keys, ret, vals)
  }

  /** The loop of parse_array. */
  method ParseElements(f: Forest, z: seq<byte>, start: nat, out: bool, ret: JsonNode?, ghost kids0: Kids,
                       ghost keys0: Keys)
    returns (ok: bool, end: nat, ghost items: seq<Json>)
    requires CString(z) && start < |z| && f.Valid() && Closed(kids0, keys0)
    requires out ==> ret != null && ret.tag == Array && UnderWay(kids0, keys0, f.kids, f.Keys(), ret, [])
    modifies f, f.kids.Keys
    ensures f.Valid() && fresh(f.kids.Keys - old(f.kids.Keys)) && f.Loose() == old(f.Loose())
    ensures ok == ParseItems(Rest(z, start)).Some?
    ensures ok ==> start < end < |z| && Rest(z, end) == ParseItems(Rest(z, start)).value.rest
    ensures ok ==> items == ParseItems(Rest(z, start)).value.items
    ensures out ==> UnderWay(kids0, keys0, f.kids, f.Keys(), ret, items)
    ensures !out ==> f.kids == old(f.kids) && f.Keys() == old(f.Keys())
    decreases |z| - start, 5
  {
    hide ParseItems, UnderWay, Closed, AllLinked, Ranked, Ledger, StateOf, KeyMap, Owned;
    var s := start;
    items := [];
    end := start;
    ghost var r := Rest(z, start);
    BeforeTwice([], [], ParseItems(r));
    while true
      invariant start <= s < |z| && f.Valid() && fresh(f.kids.Keys - old(f.kids.Keys)) && f.Loose() == old(f.Loose())
      invariant out ==> UnderWay(kids0, keys0, f.kids, f.Keys(), ret, items)
      invariant !out ==> f.kids == old(f.kids) && f.Keys() == old(f.Keys())
      invariant ParseItems(r) == Before(items, ParseItems(Rest(z, s)))
      decreases |z| - s
    {
      ghost var read := items;
      var good, last, next;
      ghost var x;
      good, last, next, x, items := ParseElement(f, z, s, out, ret, kids0, keys0, items);
      if !good {
        return false, start, items;
      }
      BeforeTwice(read, [x], ParseItems(Rest(z, next)));
      if last {
        return true, next, items;
      }
      s := next;
    }
  }

  /** What comes behind an element or a member: the closing bracket, or a comma and space. */
  method Separator(z: seq<byte>, s: nat, close: byte) returns (ok: bool, last: bool, next: nat)
    requires CString(z) && s < |z| && close != 0
    ensures ok ==> s < next < |z|
    ensures last ==> ok
    ensures var after := SkipSpace(Rest(z, s));
            && last == (after != [] && after[0] == close)
            && ok == (last || (after != [] && after[0] == COMMA))
            && (last ==> Rest(z, next) == after[1..])
            && (ok && !last ==> Rest(z, next) == SkipSpace(after[1..]))
  {
    hide SkipSpace, Rest;
    ok, last := true, false;
    next := Skip(z, s);
    RestEnd(z, next);
    if z[next] == close {
      next, last := next + 1, true;
    } else if z[next] == COMMA {
      next := Skip(z, next + 1);
    } else {
      ok := false;
    }
  }

  /** One turn: an element x, and the closing bracket or a comma and the space behind it. */
  method ParseElement(f: Forest, z: seq<byte>, s: nat, out: bool, ret: JsonNode?, ghost kids0: Kids, ghost keys0: Keys,
                      ghost read: seq<Json>)
    returns (ok: bool, last: bool, next: nat, ghost x: Json, ghost items: seq<Json>)
    requires CString(z) && s < |z| && f.Valid() && Closed(kids0, keys0)
    requires out ==> ret != null && ret.tag == Array && UnderWay(kids0, keys0, f.kids, f.Keys(), ret, read)
    modifies f, f.kids.Keys
    ensures f.Valid() && fresh(f.kids.Keys - old(f.kids.Keys)) && f.Loose() == old(f.Loose())
    ensures ok ==> s < next < |z| && items == read + [x]
    ensures out ==> UnderWay(kids0, keys0, f.kids, f.Keys(), ret, items)
    ensures !out ==> f.kids == old(f.kids) && f.Keys() == old(f.Keys())
    ensures ParseItems(Rest(z, s)) == if !ok then None
                                      else if last then Some(Items([x], Rest(z, next)))
                                      else Before([x], ParseItems(Rest(z, next)))
    decreases |z| - s, 4
  {
    hide ParseValue, ParseItems, SkipSpace, Before, Rest, Closed, UnderWay, AllLinked, Ranked, Ledger;
    hide StateOf, KeyMap, Owned;
    last := false;
    ok, next, x, items := ParseOwnElement(f, z, s, out, ret, kids0, keys0, read);
    if !ok {
      ItemsStop(Rest(z, s));
      return;
    }
    ItemsTurn(Rest(z, s), x, SkipSpace(Rest(z, next)));
    ok, last, next := Separator(z, next, CLOSE_ARRAY);
  }

  /** The element itself; if it is wanted it becomes the last of the array's children. */
  method ParseOwnElement(f: Forest, z: seq<byte>, s: nat, out: bool, ret: JsonNode?, ghost kids0: Kids,
                         ghost keys0: Keys,
                         ghost read: seq<Json>)
    returns (ok: bool, next: nat, ghost x: Json, ghost items: seq<Json>)
    requires CString(z) && s < |z| && f.Valid() && Closed(kids0, keys0)
    requires out ==> ret != null && ret.tag == Array && UnderWay(kids0, keys0, f.kids, f.Keys(), ret, read)
    modifies f, f.kids.Keys
    ensures f.Valid() && fresh(f.kids.Keys - old(f.kids.Keys)) && f.Loose() == old(f.Loose())
    ensures ok == ParseValue(Rest(z, s)).Some?
    ensures ok ==> s < next < |z| && Rest(z, next) == ParseValue(Rest(z, s)).value.rest
    ensures ok ==> x == ParseValue(Rest(z, s)).value.value && items == read + [x]
    ensures out ==> UnderWay(kids0, keys0, f.kids, f.Keys(), ret, items)
    ensures !out ==> f.kids == old(f.kids) && f.Keys() == old(f.Keys())
    decreases |z| - s, 3
  {
    hide ParseValue, Closed, Holds, Grown, Built, Rest, AllLinked, Ranked, Ledger, StateOf, KeyMap, Owned;
    ghost var kids1, keys1 := f.kids, f.Keys();
    AllClosed(f.State(), kids1, f.rank);
    x, items := Null, read;
    var element;
    ok, next, element := ParseValueAt(f, z, s, out);
    if ok {
      x := ParseValue(Rest(z, s)).value.value;
      items := read + [x];
      if out {
        AddChild(f, ret, element, None, x, read, kids0, keys0, kids1, keys1);
      }
    }
  }

  lemma ArrayOpens(r: seq<byte>, s: seq<byte>)
    requires r != [] && r[0] == OPEN_ARRAY && s == SkipSpace(r[1..])
    ensures s != [] && s[0] == CLOSE_ARRAY ==> ParseValue(r) == Some(Value(Arr([]), s[1..]))
    ensures s == [] || s[0] != CLOSE_ARRAY ==>
              match ParseItems(s)
              case None => ParseValue(r).None?
              case Some(items) => ParseValue(r) == Some(Value(Arr(items.items), items.rest))
  {
    hide ParseItems, ParseMembers, SkipSpace, ParseChars, ParseNumber, Literal;
  }

  lemma ObjectOpens(r: seq<byte>, s: seq<byte>)
    requires r != [] && r[0] == OPEN_OBJECT && s == SkipSpace(r[1..])
    ensures s != [] && s[0] == CLOSE_OBJECT ==> ParseValue(r) == Some(Value(Obj([]), s[1..]))
    ensures s == [] || s[0] != CLOSE_OBJECT ==>
              match ParseMembers(s)
              case None => ParseValue(r).None?
              case Some(members) => ParseValue(r) == Some(Value(Obj(members.members), members.rest))
  {
    hide ParseItems, ParseMembers, SkipSpace, ParseChars, ParseNumber, Literal;
  }

  ghost function BeforeMembers(members: seq<Member>, o: Option<Members>): Option<Members> {
    if o.None? then None else Some(Members(members + o.value.members, o.value.rest))
  }

  lemma BeforeMembersTwice(a: seq<Member>, b: seq<Member>, o: Option<Members>)
    ensures BeforeMembers(a, BeforeMembers(b, o)) == BeforeMembers(a + b, o) && BeforeMembers([], o) == o
  {
    if o.Some? {
      assert a + (b + o.value.members) == a + b + o.value.members;
      assert [] + o.value.members == o.value.members;
    }
  }

  /** A key and its value. */
  ghost function ParsePair(r: seq<byte>): Option<(Member, seq<byte>)> {
    var k := ParseKey(r);
    if k.None? || ParseValue(k.value.rest).None? then None
    else Some((Member(k.value.text, ParseValue(k.value.rest).value.value), ParseValue(k.value.rest).value.rest))
  }

  /** One turn of the loop of parse_object: after is what the closing brace or comma is looked for in. */
  lemma MembersTurn(r: seq<byte>, m: Member, after: seq<byte>)
    requires ParsePair(r).Some? && m == ParsePair(r).value.0 && after == SkipSpace(ParsePair(r).value.1)
    ensures after != [] && after[0] == CLOSE_OBJECT ==> ParseMembers(r) == Some(Members([m], after[1..]))
    ensures after != [] && after[0] == COMMA ==>
              ParseMembers(r) == BeforeMembers([m], ParseMembers(SkipSpace(after[1..])))
    ensures after == [] || (after[0] != CLOSE_OBJECT && after[0] != COMMA) ==> ParseMembers(r).None?
  {
    hide ParseValue, SkipSpace, ParseKey;
  }

  lemma MembersStop(r: seq<byte>)
    requires ParsePair(r).None?
    ensures ParseMembers(r).None?
  {
    hide ParseValue, SkipSpace, ParseKey;
  }

  /** The key of a member, its colon, and the spaces; without a colon the key is freed. */
  method ParseKeyAt(f: Forest, z: seq<byte>, start: nat, out: bool) returns (ok: bool, end: nat, key: seq<byte>)
    requires CString(z) && start < |z|
    modifies f`live
    ensures ok == ParseKey(Rest(z, start)).Some?
    ensures ok ==> start < end < |z| && Rest(z, end) == ParseKey(Rest(z, start)).value.rest
    ensures ok && out ==> key == ParseKey(Rest(z, start)).value.text
    ensures f.live == old(f.live) + (if ok && out then 1 else 0)
  {
    hide SkipSpace, ParseChars;
    RestEnd(z, start);
    ok, end, key := ParseString(z, start, out);
    if !ok {
      return;
    }
    if out {
      f.live := f.live + 1;
    }
    ok, end := ParseColon(z, end);
    if !ok && out {
      f.live := f.live - 1;
    }
  }

  /** The colon behind a key, and the space around it. */
  method ParseColon(z: seq<byte>, start: nat) returns (ok: bool, end: nat)
    requires CString(z) && start < |z|
    ensures var s := SkipSpace(Rest(z, start));
            && ok == (s != [] && s[0] == COLON)
            && (ok ==> start < end < |z| && Rest(z, end) == SkipSpace(s[1..]))
  {
    hide SkipSpace, Rest;
    var s := Skip(z, start);
    RestEnd(z, s);
    ok, end := z[s] == COLON, s;
    if ok {
      end := Skip(z, s + 1);
    }
  }

  /** parse_object; members keep their order, and repeated keys stay. */
  method ParseObjectAt(f: Forest, z: seq<byte>, start: nat, out: bool) returns (ok: bool, end: nat, node: JsonNode?)
    requires CString(z) && start < |z| && z[start] == OPEN_OBJECT && f.Valid()
    modifies f, f.kids.Keys
    ensures f.Valid() && fresh(f.kids.Keys - old(f.kids.Keys)) && f.Loose() == old(f.Loose())
    ensures ok == ParseValue(Rest(z, start)).Some?
    ensures ok ==> start < end < |z| && Rest(z, end) == ParseValue(Rest(z, start)).value.rest
    ensures Outcome(old(f.kids), old(f.Keys()), f.kids, f.Keys(), out, node, ValueOf(ParseValue(Rest(z, start))))
    decreases |z| - start, 1
  {
    hide ParseValue, ParseItems, ParseMembers, SkipSpace, Rest, Closed, UnderWay, ObjectUnderWay, Outcome;
    hide AllLinked, Ranked, Ledger, StateOf, KeyMap, Owned;
    ghost var kids0, keys0 := f.kids, f.Keys();
    node := MakeParent(f, Object, out);
    if out {
      NoMembers(kids0, keys0, f.kids, f.Keys(), node);
    }
    ghost var members;
    ok, end, members := ParseObjectInto(f, z, start, out, node, kids0, keys0);
    EndObject(f, node, out, ok, members, kids0, keys0);
  }

  /** What stands between the braces. */
  method ParseObjectInto(f: Forest, z: seq<byte>, start: nat, out: bool, ret: JsonNode?, ghost kids0: Kids,
                         ghost keys0: Keys)
    returns (ok: bool, end: nat, ghost members: seq<Member>)
    requires CString(z) && start < |z| && z[start] == OPEN_OBJECT && f.Valid() && Closed(kids0, keys0)
    requires out ==> ret != null && ret.tag == Object && ObjectUnderWay(kids0, keys0, f.kids, f.Keys(), ret, [])
    modifies f, f.kids.Keys
    ensures f.Valid() && fresh(f.kids.Keys - old(f.kids.Keys)) && f.Loose() == old(f.Loose())
    ensures ok ==> start < end < |z|
    ensures ParseValue(Rest(z, start)) == if ok then Some(Value(Obj(members), Rest(z, end))) else None
    ensures out ==> ObjectUnderWay(kids0, keys0, f.kids, f.Keys(), ret, members)
    ensures !out ==> f.kids == old(f.kids) && f.Keys() == old(f.Keys())
    decreases |z| - start, 0
  {
    hide ParseValue, ParseMembers, SkipSpace, Rest, Closed, ObjectUnderWay;
    hide AllLinked, Ranked, Ledger, StateOf, KeyMap, Owned;
    RestEnd(z, start);
    var s := Skip(z, start + 1);
    ObjectOpens(Rest(z, start), Rest(z, s));
    RestEnd(z, s);
    if z[s] == CLOSE_OBJECT {
      return true, s + 1, [];
    }
    ok, end, members := ParseMembersAt(f, z, s, out, ret, kids0, keys0);
  }

  /** What parse_object does with the object it has built: it is the value, or is deleted. */
  method EndObject(f: Forest, node: JsonNode?, out: bool, ok: bool, ghost members: seq<Member>, ghost kids0: Kids,
                   ghost keys0: Keys)
    requires f.Valid() && Closed(kids0, keys0)
    requires out ==> node != null && node.tag == Object && ObjectUnderWay(kids0, keys0, f.kids, f.Keys(), node, members)
    requires !out ==> f.kids == kids0 && f.Keys() == keys0
    modifies f, f.kids.Keys
    ensures f.Valid() && f.kids.Keys <= old(f.kids.Keys) && f.Loose() == old(f.Loose())
    ensures Outcome(kids0, keys0, f.kids, f.Keys(), out, node, if ok then Some(Obj(members)) else None)
  {
    hide Grown, Holds, Closed, Built, Values, KeysAre, AllLinked, Ranked, Ledger, StateOf, KeyMap, Owned;
    if out {
      if ok {
        BuiltObject(kids0, keys0, f.kids, f.Keys(), node, members);
      } else {
        GrownKeys(kids0, keys0, f.kids, f.Keys(), node);
        Discard(f, node, kids0, keys0);
      }
    }
  }

  lemma GrownKeys(kids0: Kids, keys0: Keys, kids: Kids, keys: Keys, root: JsonNode)
    requires Grown(kids0, keys0, kids, keys, root)
    ensures kids0.Keys <= kids.Keys
  {
  }

  lemma NoMembers(kids0: Kids, keys0: Keys, kids: Kids, keys: Keys, ret: JsonNode)
    requires UnderWay(kids0, keys0, kids, keys, ret, [])
    ensures ObjectUnderWay(kids0, keys0, kids, keys, ret, [])
  {
    assert Values([]) == [];
  }

  ghost predicate ObjectUnderWay(kids0: Kids, keys0: Keys, kids: Kids, keys: Keys, ret: JsonNode, members: seq<Member>)
  {
    UnderWay(kids0, keys0, kids, keys, ret, Values(members)) && KeysAre(keys, kids[ret], members)
  }

  /** The loop of parse_object. */
  method ParseMembersAt(f: Forest, z: seq<byte>, start: nat, out: bool, ret: JsonNode?, ghost kids0: Kids,
                        ghost keys0: Keys)
    returns (ok: bool, end: nat, ghost members: seq<Member>)
    requires CString(z) && start < |z| && f.Valid() && Closed(kids0, keys0)
    requires out ==> ret != null && ret.tag == Object && ObjectUnderWay(kids0, keys0, f.kids, f.Keys(), ret, [])
    modifies f, f.kids.Keys
    ensures f.Valid() && fresh(f.kids.Keys - old(f.kids.Keys)) && f.Loose() == old(f.Loose())
    ensures ok == ParseMembers(Rest(z, start)).Some?
    ensures ok ==> start < end < |z| && Rest(z, end) == ParseMembers(Rest(z, start)).value.rest
    ensures ok ==> members == ParseMembers(Rest(z, start)).value.members
    ensures out ==> ObjectUnderWay(kids0, keys0, f.kids, f.Keys(), ret, members)
    ensures !out ==> f.kids == old(f.kids) && f.Keys() == old(f.Keys())
    decreases |z| - start, 5
  {
    hide ParseMembers, ObjectUnderWay, Closed, AllLinked, Ranked, Ledger, StateOf, KeyMap, Owned;
    var s := start;
    members := [];
    end := start;
    ghost var r := Rest(z, start);
    BeforeMembersTwice([], [], ParseMembers(r));
    while true
      invariant start <= s < |z| && f.Valid() && fresh(f.kids.Keys - old(f.kids.Keys)) && f.Loose() == old(f.Loose())
      invariant out ==> ObjectUnderWay(kids0, keys0, f.kids, f.Keys(), ret, members)
      invariant !out ==> f.kids == old(f.kids) && f.Keys() == old(f.Keys())
      invariant ParseMembers(r) == BeforeMembers(members, ParseMembers(Rest(z, s)))
      decreases |z| - s
    {
      ghost var read := members;
      var good, last, next;
      ghost var m;
      good, last, next, m, members := ParseMember(f, z, s, out, ret, kids0, keys0, members);
      if !good {
        return false, start, members;
      }
      BeforeMembersTwice(read, [m], ParseMembers(Rest(z, next)));
      if last {
        return true, next, members;
      }
      s := next;
    }
  }

  /** A key and its value; if there is no value the key that has been read is freed. */
  method ParsePairAt(f: Forest, z: seq<byte>, s: nat, out: bool)
    returns (ok: bool, next: nat, key: seq<byte>, node: JsonNode?)
    requires CString(z) && s < |z| && f.Valid()
    modifies f, f.kids.Keys
    ensures f.Valid() && fresh(f.kids.Keys - old(f.kids.Keys))
    ensures f.Loose() == old(f.Loose()) + (if ok && out then 1 else 0)
    ensures ok == ParsePair(Rest(z, s)).Some?
    ensures ok ==> s < next < |z| && Rest(z, next) == ParsePair(Rest(z, s)).value.1
    ensures ok && out ==> key == ParsePair(Rest(z, s)).value.0.key
    ensures Outcome(old(f.kids), old(f.Keys()), f.kids, f.Keys(), out, node, PairValue(ParsePair(Rest(z, s))))
    decreases |z| - s, 2
  {
    hide ParseValue, ParseKey, Built, AllLinked, Ranked, Ledger, StateOf, KeyMap, Owned;
    node := null;
    ok, next, key := ParseKeyAt(f, z, s, out);
    if ok {
      ok, next, node := ParseValueAt(f, z, next, out);
      if !ok && out {
        f.live := f.live - 1;
      }
    }
  }

  ghost function PairValue(p: Option<(Member, seq<byte>)>): Option<Json> {
    if p.None? then None else Some(p.value.0.value)
  }

  /** One turn: a member m, and the closing brace or a comma and the space behind it. */
  method ParseMember(f: Forest, z: seq<byte>, s: nat, out: bool, ret: JsonNode?, ghost kids0: Kids, ghost keys0: Keys,
                     ghost read: seq<Member>)
    returns (ok: bool, last: bool, next: nat, ghost m: Member, ghost members: seq<Member>)
    requires CString(z) && s < |z| && f.Valid() && Closed(kids0, keys0)
    requires out ==> ret != null && ret.tag == Object && ObjectUnderWay(kids0, keys0, f.kids, f.Keys(), ret, read)
    modifies f, f.kids.Keys
    ensures f.Valid() && fresh(f.kids.Keys - old(f.kids.Keys)) && f.Loose() == old(f.Loose())
    ensures ok ==> s < next < |z| && members == read + [m]
    ensures out ==> ObjectUnderWay(kids0, keys0, f.kids, f.Keys(), ret, members)
    ensures !out ==> f.kids == old(f.kids) && f.Keys() == old(f.Keys())
    ensures ParseMembers(Rest(z, s)) == if !ok then None
                                        else if last then Some(Members([m], Rest(z, next)))
                                        else BeforeMembers([m], ParseMembers(Rest(z, next)))
    decreases |z| - s, 4
  {
    hide ParsePair, ParseMembers, SkipSpace, BeforeMembers, Rest, Closed, ObjectUnderWay;
    hide AllLinked, Ranked, Ledger, StateOf, KeyMap, Owned;
    last := false;
    ok, next, m, members := ParseOwnMember(f, z, s, out, ret, kids0, keys0, read);
    if !ok {
      MembersStop(Rest(z, s));
      return;
    }
    MembersTurn(Rest(z, s), m, SkipSpace(Rest(z, next)));
    ok, last, next := Separator(z, next, CLOSE_OBJECT);
  }

  /** The member itself; if it is wanted its value becomes the last of the object's children, with its key. */
  method ParseOwnMember(f: Forest, z: seq<byte>, s: nat, out: bool, ret: JsonNode?, ghost kids0: Kids,
                        ghost keys0: Keys,
                        ghost read: seq<Member>)
    returns (ok: bool, next: nat, ghost m: Member, ghost members: seq<Member>)
    requires CString(z) && s < |z| && f.Valid() && Closed(kids0, keys0)
    requires out ==> ret != null && ret.tag == Object && ObjectUnderWay(kids0, keys0, f.kids, f.Keys(), ret, read)
    modifies f, f.kids.Keys
    ensures f.Valid() && fresh(f.kids.Keys - old(f.kids.Keys)) && f.Loose() == old(f.Loose())
    ensures ok == ParsePair(Rest(z, s)).Some?
    ensures ok ==> s < next < |z| && Rest(z, next) == ParsePair(Rest(z, s)).value.1
    ensures ok ==> m == ParsePair(Rest(z, s)).value.0 && members == read + [m]
    ensures out ==> ObjectUnderWay(kids0, keys0, f.kids, f.Keys(), ret, members)
    ensures !out ==> f.kids == old(f.kids) && f.Keys() == old(f.Keys())
    decreases |z| - s, 3
  {
    hide ParsePair, Closed, Holds, Grown, Built, Rest, Values, KeysAre, AllLinked, Ranked, Ledger, StateOf;
    hide KeyMap, Owned;
    ghost var kids1, keys1 := f.kids, f.Keys();
    AllClosed(f.State(), kids1, f.rank);
    m, members := Member([], Null), read;
    var key, value;
    ok, next, key, value := ParsePairAt(f, z, s, out);
    if ok {
      m := ParsePair(Rest(z, s)).value.0;
      members := read + [m];
      if out {
        AddMember(f, ret, value, key, m, read, kids0, keys0, kids1, keys1);
      }
    }
  }

  /** append_member. */
  method AddMember(f: Forest, ret: JsonNode, e: JsonNode, key: seq<byte>, ghost m: Member, ghost read: seq<Member>,
                   ghost kids0: Kids, ghost keys0: Keys, ghost kids1: Kids, ghost keys1: Keys)
    requires f.Valid() && Closed(kids0, keys0) && Closed(kids1, keys1) && ret.tag == Object && m.key == key
    requires ObjectUnderWay(kids0, keys0, kids1, keys1, ret, read) && Built(kids1, keys1, f.kids, f.Keys(), e, m.value)
    modifies f, f.kids.Keys
    ensures f.Valid() && ObjectUnderWay(kids0, keys0, f.kids, f.Keys(), ret, read + [m])
    ensures f.kids.Keys == old(f.kids.Keys) && f.Loose() == old(f.Loose()) - 1
  {
    hide Closed, Holds, Grown, Built, Values, KeysAre, AllLinked, Ranked, Ledger, StateOf, KeyMap, Owned;
    ghost var kids2, keys2 := f.kids, f.Keys();
    AllClosed(f.State(), kids2, f.rank);
    BuiltIsGrown(kids1, keys1, kids2, keys2, e, m.value);
    KeysAppend(kids0, keys0, kids1, keys1, ret, read, kids2, keys2, e, m);
    AddChild(f, ret, e, Some(key), m.value, Values(read), kids0, keys0, kids1, keys1);
  }

  // ---------------------------------------------------------------- entry points

  /**
   * json_decode: the nodes of the value beside the ones that were there; of a text that is
   * refused, and of its nodes, keys and strings, nothing is left.
   */
  method JsonDecode(f: Forest, z: seq<byte>) returns (node: JsonNode?)
    requires CString(z) && f.Valid()
    modifies f, f.kids.Keys
    ensures f.Valid() && fresh(f.kids.Keys - old(f.kids.Keys)) && f.Loose() == old(f.Loose())
    ensures Outcome(old(f.kids), old(f.Keys()), f.kids, f.Keys(), true, node, Decode(z[..|z| - 1]))
    ensures Decode(z[..|z| - 1]) == None ==> node == null
    ensures forall n :: n in old(f.kids) ==> n.Fields() == old(n.Fields())
  {
    hide Built, AllLinked, Ranked, Ledger, StateOf, KeyMap, Owned, Closed, Outcome, Decode, Current;
    ghost var mem0, kids0 := f.State(), f.kids;
    AllClosed(mem0, kids0, f.rank);
    StateIsCurrent(f);
    forall n: JsonNode | n in kids0 ensures mem0[n] == old(n.Fields()) {
      CurrentAt(mem0, n);
    }
    node := DecodeWhole(f, z);
    StateIsCurrent(f);
    forall n: JsonNode | n in kids0 ensures n.Fields() == mem0[n] {
      OutcomeKeepsCell(mem0, kids0, f.State(), f.kids, node, Decode(z[..|z| - 1]), n);
      CurrentAt(f.State(), n);
    }
  }

  /** The body of json_decode. */
  method DecodeWhole(f: Forest, z: seq<byte>) returns (node: JsonNode?)
    requires CString(z) && f.Valid()
    modifies f, f.kids.Keys
    ensures f.Valid() && fresh(f.kids.Keys - old(f.kids.Keys)) && f.Loose() == old(f.Loose())
    ensures Outcome(old(f.kids), old(f.Keys()), f.kids, f.Keys(), true, node, Decode(z[..|z| - 1]))
    ensures Decode(z[..|z| - 1]) == None ==> node == null
  {
    hide ParseValue, SkipSpace, Built, AllLinked, Ranked, Ledger, StateOf, KeyMap, Owned, Closed;
    ghost var kids0, keys0 := f.kids, f.Keys();
    AllClosed(f.State(), kids0, f.rank);
    var s := Skip(z, 0);
    var ok, end;
    ok, end, node := ParseValueAt(f, z, s, true);
    if !ok {
      node := null;
    } else {
      end := Skip(z, end);
      RestEnd(z, end);
      if z[end] != 0 {
        BuiltIsGrown(kids0, keys0, f.kids, f.Keys(), node, ParseValue(Rest(z, s)).value.value);
        Discard(f, node, kids0, keys0);
        node := null;
      }
    }
  }

  lemma OutcomeKeepsCell(mem0: Mem, kids0: Kids, mem: Mem, kids: Kids, node: JsonNode?, v: Option<Json>, n: JsonNode)
    requires AllLinked(mem0, kids0) && AllLinked(mem, kids) && Closed(kids0, KeyMap(mem0)) && n in kids0
    requires Outcome(kids0, KeyMap(mem0), kids, KeyMap(mem), true, node, v)
    ensures n in kids && (mem[n].tag == mem0[n].tag ==> mem[n] == mem0[n])
  {
    if v.Some? {
      BuiltIsGrown(kids0, KeyMap(mem0), kids, KeyMap(mem), node, v.value);
    }
    if mem[n].tag == mem0[n].tag {
      GrownKeepsCell(mem0, kids0, mem, kids, if v.Some? then node else null, n);
    }
    hide AllLinked, Closed, Built, KeyMap, Decode;
  }

  /** json_validate: the same verdict, without building anything. */
  method JsonValidate(f: Forest, z: seq<byte>) returns (ok: bool)
    requires CString(z) && f.Valid()
    modifies f, f.kids.Keys
    ensures ok == Decode(z[..|z| - 1]).Some?
    ensures f.Valid() && f.kids == old(f.kids) && f.Keys() == old(f.Keys()) && f.Loose() == old(f.Loose())
  {
    hide ParseValue, SkipSpace, Built, AllLinked, Ranked, Ledger, StateOf, KeyMap, Owned, Closed;
    var s := Skip(z, 0);
    var end, node;
    ok, end, node := ParseValueAt(f, z, s, false);
    if !ok {
      return false;
    }
    end := Skip(z, end);
    RestEnd(z, end);
    return z[end] == 0;
  }
}
