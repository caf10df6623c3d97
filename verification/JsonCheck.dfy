/**
 * json_check of json.c on any nodes whatever: it accepts exactly the roots of trees that keep the
 * invariant and hold nothing but UTF-8. On nodes that keep the invariant it always ends.
 */
module JsonCheck {
  import opened Bytes
  import opened JsonTree
  import opened JsonDelete
  import opened JsonLinked
  import T = JsonText
  import R = JsonRoundTrip
  import Utf8

  // ---------------------------------------------------------------- one list

  /** ks are the nodes the loop visits: from head along next up to null. */
  ghost predicate Chain(mem: Mem, n: JsonNode, ks: seq<JsonNode>)
    requires n in mem
  {
    && mem[n].head == NodeAt(ks, 0)
    && (forall i :: 0 <= i < |ks| ==> ks[i] in mem && mem[ks[i]].next == NodeAt(ks, i + 1))
  }

  /** The tests of json_check on the child c of n. */
  ghost predicate ChildPasses(mem: Mem, n: JsonNode, c: JsonNode)
    requires n in mem && c in mem && (mem[c].next == null || mem[c].next in mem)
  {
    var k := mem[c];
    && c != n && k.next != c && k.next != mem[n].head && k.parent == n
    && (k.next != null ==> mem[k.next].prev == c)
    && (mem[n].tag == Array ==> k.key == None) && (mem[n].tag == Object ==> k.key.Some?)
  }

  /** The tests of json_check on an array or object whose loop visits ks. */
  ghost predicate Passes(mem: Mem, n: JsonNode, ks: seq<JsonNode>)
    requires n in mem && Chain(mem, n, ks)
  {
    var head, tail := mem[n].head, mem[n].tail;
    if head == null || tail == null then head == null && tail == null
    else mem[ks[0]].prev == null && (forall i :: 0 <= i < |ks| ==> ChildPasses(mem, n, ks[i])) && ks[|ks| - 1] == tail
  }

  lemma {:induction false} BackLinksSeparate(mem: Mem, n: JsonNode, ks: seq<JsonNode>, i: nat, j: nat)
    requires n in mem && Chain(mem, n, ks) && i < j < |ks|
    requires mem[ks[0]].prev == null && forall i :: 0 <= i < |ks| ==> ChildPasses(mem, n, ks[i])
    ensures ks[i] != ks[j]
  {
    assert ChildPasses(mem, n, ks[j - 1]);
    if i > 0 {
      assert ChildPasses(mem, n, ks[i - 1]);
      BackLinksSeparate(mem, n, ks, i - 1, j - 1);
    }
  }

  lemma PassedIsLinked(mem: Mem, n: JsonNode, ks: seq<JsonNode>)
    requires n in mem && Chain(mem, n, ks) && !mem[n].tag.Leaf? && Passes(mem, n, ks)
    ensures Linked(mem, n, ks) && n !in ks
  {
    if ks != [] {
      forall i, j | 0 <= i < j < |ks| ensures ks[i] != ks[j] {
        BackLinksSeparate(mem, n, ks, i, j);
      }
      forall i | 0 <= i < |ks| ensures InPlace(mem, n, ks, i) {
        assert ChildPasses(mem, n, ks[i]);
        if i > 0 { assert ChildPasses(mem, n, ks[i - 1]); }
      }
    }
  }

  lemma LinkedIsPassed(mem: Mem, n: JsonNode, ks: seq<JsonNode>)
    requires n in mem && Linked(mem, n, ks) && n !in ks
    ensures Chain(mem, n, ks) && Passes(mem, n, ks)
  {
    if ks != [] { assert InPlace(mem, n, ks, 0); }
    forall i | 0 <= i < |ks| ensures ks[i] in mem && mem[ks[i]].next == NodeAt(ks, i + 1) {
      assert InPlace(mem, n, ks, i);
    }
    forall i | 0 <= i < |ks| ensures ChildPasses(mem, n, ks[i]) {
      assert InPlace(mem, n, ks, i);
      if i + 1 < |ks| { assert InPlace(mem, n, ks, i + 1); }
    }
  }

  /** The local tests say exactly that the list is doubly linked, without repetition, and keyed right. */
  lemma PassesExactly(mem: Mem, n: JsonNode, ks: seq<JsonNode>)
    requires n in mem && Chain(mem, n, ks) && !mem[n].tag.Leaf?
    ensures Passes(mem, n, ks) <==> Linked(mem, n, ks) && n !in ks
  {
    if Passes(mem, n, ks) {
      PassedIsLinked(mem, n, ks);
    }
    if Linked(mem, n, ks) && n !in ks {
      LinkedIsPassed(mem, n, ks);
    }
  }

  // ---------------------------------------------------------------- a whole tree

  /** A C string ends at its first NUL. */
  function UpToNul(s: seq<byte>): (c: seq<byte>)
    ensures 0 !in c && (0 !in s ==> c == s)
  {
    if s == [] || s[0] == 0 then [] else [s[0]] + UpToNul(s[1..])
  }

  /** The key of a node and the string it may hold are UTF-8. */
  ghost predicate TextsPass(key: Option<seq<byte>>, tag: Tag) {
    && (key.Some? ==> Utf8.IsText(UpToNul(key.value)))
    && (tag.Leaf? && tag.value.Str? ==> Utf8.IsText(UpToNul(tag.value.text)))
  }

  ghost predicate AllText(mem: Mem, s: seq<JsonNode>) {
    forall n :: n in s && n in mem ==> TextsPass(mem[n].key, mem[n].tag)
  }

  lemma AllTextConcat(mem: Mem, s: seq<JsonNode>, t: seq<JsonNode>)
    ensures AllText(mem, s + t) <==> AllText(mem, s) && AllText(mem, t)
  {
    assert forall n :: n in s + t <==> n in s || n in t;
  }

  lemma AllTextNone(mem: Mem)
    ensures AllText(mem, [])
  {
  }

  lemma AllTextEnds(mem: Mem, n: JsonNode)
    requires n in mem
    ensures AllText(mem, []) && (AllText(mem, [n]) <==> TextsPass(mem[n].key, mem[n].tag))
  {
    assert [n][0] == n;
  }

  method CheckText(text: seq<byte>) returns (ok: bool)
    ensures ok == Utf8.IsText(UpToNul(text))
  {
    var z := UpToNul(text) + [0];
    assert z[..|z| - 1] == UpToNul(text);
    ok := Utf8.Validate(z);
  }

  method CheckTexts(n: JsonNode) returns (ok: bool)
    ensures ok == TextsPass(n.key, n.tag)
  {
    ok := true;
    if n.key.Some? {
      ok := CheckText(n.key.value);
    }
    if n.tag.Leaf? && n.tag.value.Str? {
      var passes := CheckText(n.tag.value.text);
      ok := ok && passes;
    }
  }

  /** The i-th child as the loop meets it, with all it is tested for. */
  lemma Visited(mem: Mem, kids: Kids, rank: Rank, n: JsonNode, i: nat)
    requires AllLinked(mem, kids) && Ranked(kids, rank) && n in kids && i < |kids[n]|
    ensures var c := kids[n][i];
            && c in kids && 0 <= rank[c] < rank[n] && (mem[c].next == null || mem[c].next in mem)
            && ChildPasses(mem, n, c) && mem[c].next == NodeAt(kids[n], i + 1)
  {
    NeighboursListed(mem, kids, kids[n][i], n, i);
    assert Linked(mem, n, kids[n]);
    NotOwnChild(kids, rank, n);
    LinkedIsPassed(mem, n, kids[n]);
  }

  lemma Ends(mem: Mem, kids: Kids, rank: Rank, n: JsonNode)
    requires AllLinked(mem, kids) && Ranked(kids, rank) && n in kids
    ensures mem[n].head == NodeAt(kids[n], 0) && mem[n].tail == NodeAt(kids[n], |kids[n]| - 1)
    ensures mem[n].tag.Leaf? ==> kids[n] == []
    ensures kids[n] != [] ==> kids[n][0] in kids && mem[kids[n][0]].prev == null
  {
    assert Linked(mem, n, kids[n]);
    if kids[n] != [] {
      NeighboursListed(mem, kids, kids[n][0], n, 0);
    }
  }

  lemma UnderUnfolds(kids: Kids, rank: Rank, n: JsonNode)
    requires Ranked(kids, rank) && n in kids
    ensures Under(kids, rank, n) == UnderFirst(kids, rank, n, |kids[n]|) + [n]
    ensures UnderFirst(kids, rank, n, 0) == []
  {
  }

  lemma UnderStep(kids: Kids, rank: Rank, n: JsonNode, i: nat)
    requires Ranked(kids, rank) && n in kids && i < |kids[n]|
    ensures UnderFirst(kids, rank, n, i + 1) == UnderFirst(kids, rank, n, i) + Under(kids, rank, kids[n][i])
  {
  }

  // ---------------------------------------------------------------- json_check

  /** Running: json_check has not come to an end within the calls and turns it was allowed. */
  datatype Verdict = Running | Failed | Passed

  /** The pointers that json_check follows lead to nodes. */
  ghost predicate Sealed(mem: Mem) {
    forall n :: n in mem ==>
      && mem[n].tag == n.tag && (mem[n].head == null || mem[n].head in mem)
      && (mem[n].next == null || mem[n].next in mem)
  }

  /** json_check, nested no deeper than fuel. */
  ghost function NodeVerdict(mem: Mem, n: JsonNode, fuel: nat): Verdict
    requires Sealed(mem) && n in mem
    decreases fuel
  {
    var c := mem[n];
    if fuel == 0 then Running
    else if !TextsPass(c.key, c.tag) then Failed
    else if c.tag.Leaf? then Passed
    else if c.head == null || c.tail == null then (if c.head == null && c.tail == null then Passed else Failed)
    else if mem[c.head].prev != null then Failed
    else ListVerdict(mem, n, c.head, null, fuel - 1)
  }

  /** The loop over the children of n from child on, behind last. */
  ghost function ListVerdict(mem: Mem, n: JsonNode, child: JsonNode?, last: JsonNode?, fuel: nat): Verdict
    requires Sealed(mem) && n in mem && (child == null || child in mem)
    decreases fuel
  {
    if fuel == 0 then Running
    else if child == null then (if last == mem[n].tail then Passed else Failed)
    else if !ChildPasses(mem, n, child) then Failed
    else match NodeVerdict(mem, child, fuel - 1)
         case Passed => ListVerdict(mem, n, mem[child].next, child, fuel - 1)
         case other => other
  }

  /** json_check, if it ends. */
  method Check(node: JsonNode, ghost mem: Mem, ghost fuel: nat) returns (ok: bool)
    requires Current(mem) && Sealed(mem) && node in mem && NodeVerdict(mem, node, fuel) != Running
    ensures ok <==> NodeVerdict(mem, node, fuel) == Passed
    decreases fuel
  {
    assert node.Fields() == mem[node];
    hide TextsPass, Current;
    ok := CheckTexts(node);
    if !ok || node.tag.Leaf? {
      return;
    }
    if node.head == null || node.tail == null {
      return node.head == null && node.tail == null;
    }
    CurrentAt(mem, node.head);
    if node.head.prev != null {
      return false;
    }
    ok := CheckChildren(node, mem, fuel - 1);
  }

  /** The loop of json_check. */
  method CheckChildren(node: JsonNode, ghost mem: Mem, ghost fuel: nat) returns (ok: bool)
    requires Current(mem) && Sealed(mem) && node in mem && ListVerdict(mem, node, mem[node].head, null, fuel) != Running
    ensures ok <==> ListVerdict(mem, node, mem[node].head, null, fuel) == Passed
    decreases fuel
  {
    CurrentAt(mem, node);
    hide Current, NodeVerdict;
    var child, last: JsonNode? := node.head, null;
    ghost var left: nat := fuel;
    while child != null
      invariant left <= fuel && (child == null || child in mem)
      invariant ListVerdict(mem, node, child, last, left) == ListVerdict(mem, node, mem[node].head, null, fuel)
      decreases left
    {
      ListStep(mem, node, child, last, left);
      CurrentAt(mem, child);
      ok := CheckLinks(node, child, mem);
      if !ok {
        return;
      }
      ok := Check(child, mem, left - 1);
      if !ok {
        return;
      }
      last, child := child, child.next;
      left := left - 1;
    }
    ok := last == node.tail;
  }

  lemma ListStep(mem: Mem, n: JsonNode, child: JsonNode, last: JsonNode?, fuel: nat)
    requires Sealed(mem) && n in mem && child in mem && ListVerdict(mem, n, child, last, fuel) != Running
    ensures fuel > 0
    ensures if !ChildPasses(mem, n, child) then ListVerdict(mem, n, child, last, fuel) == Failed
            else if NodeVerdict(mem, child, fuel - 1) != Passed
            then NodeVerdict(mem, child, fuel - 1) == Failed == ListVerdict(mem, n, child, last, fuel)
            else ListVerdict(mem, n, child, last, fuel) == ListVerdict(mem, n, mem[child].next, child, fuel - 1)
  {
    hide NodeVerdict, ChildPasses;
  }

  /** The tests on the pointers and the key of one child. */
  method CheckLinks(node: JsonNode, child: JsonNode, ghost mem: Mem) returns (ok: bool)
    requires Current(mem) && Sealed(mem) && node in mem && child in mem
    ensures ok <==> ChildPasses(mem, node, child)
  {
    CurrentAt(mem, node);
    CurrentAt(mem, child);
    var next := child.next;
    ok := child != node && next != child && next != node.head && child.parent == node;
    if next != null {
      CurrentAt(mem, next);
      ok := ok && next.prev == child;
    }
    ok := ok && !(node.tag == Array && child.key.Some?) && !(node.tag == Object && child.key == None);
  }

  // ---------------------------------------------------------------- what it accepts

  lemma {:induction false} MoreFuel(mem: Mem, n: JsonNode, fuel: nat, more: nat)
    requires Sealed(mem) && n in mem && NodeVerdict(mem, n, fuel) != Running && fuel <= more
    ensures NodeVerdict(mem, n, more) == NodeVerdict(mem, n, fuel)
    decreases fuel
  {
    var c := mem[n];
    hide TextsPass, ListVerdict;
    if TextsPass(c.key, c.tag) && !c.tag.Leaf? && c.head != null && c.tail != null && mem[c.head].prev == null {
      MoreListFuel(mem, n, c.head, null, fuel - 1, more - 1);
    }
  }

  lemma {:induction false} MoreListFuel(mem: Mem, n: JsonNode, child: JsonNode?, last: JsonNode?, fuel: nat, more: nat)
    requires Sealed(mem) && n in mem && (child == null || child in mem) && fuel <= more
    requires ListVerdict(mem, n, child, last, fuel) != Running
    ensures ListVerdict(mem, n, child, last, more) == ListVerdict(mem, n, child, last, fuel)
    decreases fuel
  {
    hide NodeVerdict, ChildPasses;
    if child != null && ChildPasses(mem, n, child) {
      MoreFuel(mem, child, fuel - 1, more - 1);
      if NodeVerdict(mem, child, fuel - 1) == Passed {
        MoreListFuel(mem, n, mem[child].next, child, fuel - 1, more - 1);
      }
    }
  }

  /** The nodes from c along next, limit of them at most. */
  ghost function Along(mem: Mem, c: JsonNode?, limit: nat): seq<JsonNode> {
    if c == null || c !in mem || limit == 0 then [] else [c] + Along(mem, mem[c].next, limit - 1)
  }

  /** The children of n as the next pointers have them. */
  ghost function ListOf(mem: Mem, n: JsonNode): seq<JsonNode>
    requires n in mem
  {
    Along(mem, mem[n].head, |mem|)
  }

  lemma {:induction false} DistinctFits(ks: seq<JsonNode>, all: set<JsonNode>)
    requires Distinct(ks) && forall k :: k in ks ==> k in all
    ensures |ks| <= |all|
    decreases |ks|
  {
    if ks != [] {
      var rest := ks[1..];
      forall k | k in rest ensures k in all - {ks[0]} {
        var i :| 0 <= i < |rest| && rest[i] == k;
        assert ks[0] != ks[i + 1];
      }
      assert forall i, j :: 0 <= i < j < |rest| ==> rest[i] == ks[i + 1] && rest[j] == ks[j + 1];
      DistinctFits(rest, all - {ks[0]});
    }
  }

  lemma {:induction false} AlongIs(mem: Mem, ks: seq<JsonNode>, limit: nat)
    requires |ks| <= limit
    requires forall i :: 0 <= i < |ks| ==> ks[i] in mem && mem[ks[i]].next == NodeAt(ks, i + 1)
    ensures Along(mem, NodeAt(ks, 0), limit) == ks
    decreases |ks|
  {
    if ks != [] {
      var rest := ks[1..];
      forall i | 0 <= i < |rest| ensures rest[i] in mem && mem[rest[i]].next == NodeAt(rest, i + 1) {
        assert rest[i] == ks[i + 1] && NodeAt(rest, i + 1) == NodeAt(ks, i + 2);
      }
      AlongIs(mem, rest, limit - 1);
      assert NodeAt(rest, 0) == NodeAt(ks, 1) == mem[ks[0]].next;
    }
  }

  /** There is only one list that a node can have. */
  lemma LinkedIsListOf(mem: Mem, n: JsonNode, ks: seq<JsonNode>)
    requires n in mem && Linked(mem, n, ks)
    ensures ks == ListOf(mem, n)
  {
    forall i | 0 <= i < |ks| ensures ks[i] in mem && mem[ks[i]].next == NodeAt(ks, i + 1) {
      assert InPlace(mem, n, ks, i);
    }
    DistinctFits(ks, mem.Keys);
    assert |mem| == |mem.Keys|;
    AlongIs(mem, ks, |mem|);
  }

  /** n is the root of a tree of depth d at most: every list in it is one of the invariant, and all texts are UTF-8. */
  ghost predicate Tree(mem: Mem, n: JsonNode, d: nat)
    decreases d
  {
    && n in mem && TextsPass(mem[n].key, mem[n].tag)
    && (mem[n].tag.Leaf? || (
          && Linked(mem, n, ListOf(mem, n)) && n !in ListOf(mem, n)
          && (forall k :: k in ListOf(mem, n) ==> d > 0 && Tree(mem, k, d - 1))))
  }

  /** What a loop that passes has visited. */
  ghost predicate Visits(mem: Mem, n: JsonNode, child: JsonNode?, last: JsonNode?, ks: seq<JsonNode>, fuel: nat)
    requires Sealed(mem) && n in mem
  {
    && child == NodeAt(ks, 0) && mem[n].tail == (if ks == [] then last else ks[|ks| - 1])
    && (forall i :: 0 <= i < |ks| ==> ks[i] in mem && mem[ks[i]].next == NodeAt(ks, i + 1))
    && (forall i :: 0 <= i < |ks| ==> ChildPasses(mem, n, ks[i]) && NodeVerdict(mem, ks[i], fuel) == Passed)
  }

  lemma {:induction false} PassedVisits(mem: Mem, n: JsonNode, child: JsonNode?, last: JsonNode?, fuel: nat)
    returns (ks: seq<JsonNode>)
    requires Sealed(mem) && n in mem && (child == null || child in mem)
    requires ListVerdict(mem, n, child, last, fuel) == Passed
    ensures Visits(mem, n, child, last, ks, fuel)
    decreases fuel
  {
    hide NodeVerdict, ChildPasses;
    if child == null {
      ks := [];
    } else {
      ListStep(mem, n, child, last, fuel);
      var rest := PassedVisits(mem, n, mem[child].next, child, fuel - 1);
      ks := [child] + rest;
      MoreFuel(mem, child, fuel - 1, fuel);
      forall i | 0 <= i < |ks|
        ensures ks[i] in mem && mem[ks[i]].next == NodeAt(ks, i + 1) && ChildPasses(mem, n, ks[i])
        ensures NodeVerdict(mem, ks[i], fuel) == Passed
      {
        if i > 0 {
          assert ks[i] == rest[i - 1] && NodeAt(ks, i + 1) == NodeAt(rest, i);
          MoreFuel(mem, rest[i - 1], fuel - 1, fuel);
        }
      }
    }
  }

  /** The list of a node that passes is one of the invariant. */
  lemma PassedLinks(mem: Mem, n: JsonNode, fuel: nat)
    requires Sealed(mem) && n in mem && NodeVerdict(mem, n, fuel) == Passed && !mem[n].tag.Leaf?
    ensures fuel > 0 && Linked(mem, n, ListOf(mem, n)) && n !in ListOf(mem, n)
    ensures forall k :: k in ListOf(mem, n) ==> k in mem && NodeVerdict(mem, k, fuel - 1) == Passed
  {
    var ks := [];
    if mem[n].head != null && mem[n].tail != null {
      ks := PassedVisits(mem, n, mem[n].head, null, fuel - 1);
    }
    hide NodeVerdict, ChildPasses, TextsPass;
    assert Chain(mem, n, ks);
    PassesExactly(mem, n, ks);
    LinkedIsListOf(mem, n, ks);
  }

  lemma {:induction false} PassedIsTree(mem: Mem, n: JsonNode, fuel: nat)
    requires Sealed(mem) && n in mem && NodeVerdict(mem, n, fuel) == Passed
    ensures Tree(mem, n, fuel)
    decreases fuel
  {
    if !mem[n].tag.Leaf? {
      PassedLinks(mem, n, fuel);
      forall k | k in ListOf(mem, n) ensures Tree(mem, k, fuel - 1) {
        PassedIsTree(mem, k, fuel - 1);
      }
    }
    hide TextsPass, ListVerdict, Linked, ListOf;
  }

  lemma {:induction false} TreePasses(mem: Mem, n: JsonNode, d: nat) returns (fuel: nat)
    requires Sealed(mem) && Tree(mem, n, d)
    ensures n in mem && NodeVerdict(mem, n, fuel) == Passed
    decreases d, |mem| + 1
  {
    if mem[n].tag.Leaf? {
      fuel := 1;
    } else {
      var ks := ListOf(mem, n);
      LinkedIsPassed(mem, n, ks);
      ListFits(mem, n, ks);
      var left := ListPasses(mem, n, d, 0);
      hide TextsPass, ListVerdict, Linked, ListOf, Tree, ChildPasses;
      fuel := left + 1;
    }
  }

  lemma ListFits(mem: Mem, n: JsonNode, ks: seq<JsonNode>)
    requires n in mem && Linked(mem, n, ks)
    ensures |ks| <= |mem|
  {
    forall i | 0 <= i < |ks| ensures ks[i] in mem {
      assert InPlace(mem, n, ks, i);
    }
    DistinctFits(ks, mem.Keys);
    assert |mem| == |mem.Keys|;
  }

  lemma {:induction false} ListPasses(mem: Mem, n: JsonNode, d: nat, i: nat) returns (fuel: nat)
    requires Sealed(mem) && Tree(mem, n, d) && !mem[n].tag.Leaf? && i <= |ListOf(mem, n)| <= |mem|
    ensures var ks := ListOf(mem, n);
            && (NodeAt(ks, i) == null || NodeAt(ks, i) in mem)
            && ListVerdict(mem, n, NodeAt(ks, i), NodeAt(ks, i - 1), fuel) == Passed
    decreases d, |mem| - i
  {
    var ks := ListOf(mem, n);
    if i == |ks| {
      fuel := 1;
    } else {
      LinkedIsPassed(mem, n, ks);
      assert ks[i] in ks;
      var one := TreePasses(mem, ks[i], d - 1);
      var others := ListPasses(mem, n, d, i + 1);
      hide Linked, ListOf, Tree, ChildPasses;
      fuel := one + others + 1;
      MoreFuel(mem, ks[i], one, one + others);
      MoreListFuel(mem, n, NodeAt(ks, i + 1), ks[i], others, one + others);
      hide NodeVerdict;
    }
  }

  /** json_check ends with true exactly on the roots of such trees. */
  lemma CheckExactly(mem: Mem, n: JsonNode)
    requires Sealed(mem) && n in mem
    ensures (exists fuel :: NodeVerdict(mem, n, fuel) == Passed) <==> (exists d :: Tree(mem, n, d))
  {
    hide NodeVerdict, Tree;
    if fuel :| NodeVerdict(mem, n, fuel) == Passed {
      PassedIsTree(mem, n, fuel);
    }
    if d :| Tree(mem, n, d) {
      var fuel := TreePasses(mem, n, d);
    }
  }

  /** Two arrays appended to each other. */
  ghost function Knot(a: JsonNode, b: JsonNode): Mem {
    map[a := Cell(Array, None, b, null, null, b, b), b := Cell(Array, None, a, null, null, a, a)]
  }

  lemma KnotIsAppended(a: JsonNode, b: JsonNode)
    requires a != b
    ensures AppendMem(AppendMem(map[a := NewCell(Array), b := NewCell(Array)], a, b, None), b, a, None) == Knot(a, b)
  {
  }

  /** On them json_check never ends. */
  lemma {:induction false} KnotNeverEnds(a: JsonNode, b: JsonNode, fuel: nat)
    requires a != b && a.tag == Array && b.tag == Array
    ensures NodeVerdict(Knot(a, b), a, fuel) == Running == NodeVerdict(Knot(b, a), a, fuel)
    decreases fuel
  {
    if fuel > 1 {
      KnotNeverEnds(b, a, fuel - 2);
    }
  }

  /** An array appended to itself is refused. */
  lemma SelfAppendFails(a: JsonNode)
    requires a.tag == Array
    ensures NodeVerdict(AppendMem(map[a := NewCell(Array)], a, a, None), a, 2) == Failed
  {
    SelfAppendIsCyclic(a, map[]);
  }

  // ---------------------------------------------------------------- nodes that keep the invariant

  lemma ValidIsSealed(f: Forest)
    requires f.Valid()
    ensures Sealed(f.State()) && Current(f.State())
  {
    hide AllLinked, Ranked, Ledger, StateOf, Current;
    StateIsCurrent(f);
    forall n | n in f.kids
      ensures f.State()[n].tag == n.tag
      ensures f.State()[n].head == null || f.State()[n].head in f.kids
      ensures f.State()[n].next == null || f.State()[n].next in f.kids
    {
      StateAt(f.kids.Keys, n);
      LinkedPointers(f.State(), f.kids, n);
    }
  }

  lemma LinkedPointers(mem: Mem, kids: Kids, n: JsonNode)
    requires AllLinked(mem, kids) && n in kids
    ensures (mem[n].head == null || mem[n].head in kids) && (mem[n].next == null || mem[n].next in kids)
  {
    TailListed(mem, kids, n);
    assert Placed(mem, kids, n);
    if mem[n].parent != null {
      var p := mem[n].parent;
      var i :| 0 <= i < |kids[p]| && kids[p][i] == n;
      NeighboursListed(mem, kids, n, p, i);
    }
  }

  /** Everything under the children of n from the i-th on is UTF-8. */
  ghost predicate TextFrom(mem: Mem, kids: Kids, rank: Rank, n: JsonNode, i: nat)
    requires Ranked(kids, rank) && n in kids
  {
    forall j :: i <= j < |kids[n]| ==> AllText(mem, Under(kids, rank, kids[n][j]))
  }

  lemma {:induction false} TextFromFirst(mem: Mem, kids: Kids, rank: Rank, n: JsonNode, i: nat)
    requires Ranked(kids, rank) && n in kids && i <= |kids[n]|
    ensures AllText(mem, UnderFirst(kids, rank, n, i))
            <==> forall j :: 0 <= j < i ==> AllText(mem, Under(kids, rank, kids[n][j]))
    decreases i
  {
    hide AllText, Under, UnderFirst;
    if i == 0 {
      UnderUnfolds(kids, rank, n);
      AllTextNone(mem);
    } else {
      TextFromFirst(mem, kids, rank, n, i - 1);
      UnderStep(kids, rank, n, i - 1);
      AllTextConcat(mem, UnderFirst(kids, rank, n, i - 1), Under(kids, rank, kids[n][i - 1]));
    }
  }

  /** Nodes that keep the invariant: json_check ends, and only the keys and strings decide. */
  lemma {:induction false} CheckEnds(mem: Mem, kids: Kids, rank: Rank, n: JsonNode) returns (fuel: nat)
    requires AllLinked(mem, kids) && Ranked(kids, rank) && n in kids && Sealed(mem)
    ensures NodeVerdict(mem, n, fuel) == if AllText(mem, Under(kids, rank, n)) then Passed else Failed
    decreases rank[n], |kids[n]| + 1
  {
    hide *;
    EndsOfList(mem, kids, rank, n);
    UnderIsText(mem, kids, rank, n);
    if mem[n].tag.Leaf? || kids[n] == [] {
      NothingFrom(mem, kids, rank, n);
      NodeWithoutList(mem, n);
      fuel := 1;
    } else {
      var left := ListEnds(mem, kids, rank, n, 0);
      NodeWithList(mem, n, left);
      fuel := left + 1;
    }
  }

  lemma EndsOfList(mem: Mem, kids: Kids, rank: Rank, n: JsonNode)
    requires AllLinked(mem, kids) && Ranked(kids, rank) && n in kids && Sealed(mem)
    ensures n in mem && (mem[n].tag.Leaf? ==> kids[n] == [])
    ensures if kids[n] == [] then mem[n].head == null && mem[n].tail == null
            else mem[n].tail != null && mem[n].head == NodeAt(kids[n], 0) != null
                 && NodeAt(kids[n], -1) == null && mem[mem[n].head].prev == null
  {
    Ends(mem, kids, rank, n);
    hide Ranked;
  }

  lemma UnderIsText(mem: Mem, kids: Kids, rank: Rank, n: JsonNode)
    requires Ranked(kids, rank) && n in kids && n in mem
    ensures AllText(mem, Under(kids, rank, n)) <==> TextsPass(mem[n].key, mem[n].tag) && TextFrom(mem, kids, rank, n, 0)
  {
    UnderUnfolds(kids, rank, n);
    AllTextEnds(mem, n);
    AllTextConcat(mem, UnderFirst(kids, rank, n, |kids[n]|), [n]);
    TextFromFirst(mem, kids, rank, n, |kids[n]|);
    hide AllText, Under, UnderFirst, TextsPass, Ranked;
  }

  lemma NothingFrom(mem: Mem, kids: Kids, rank: Rank, n: JsonNode)
    requires Ranked(kids, rank) && n in kids && kids[n] == []
    ensures TextFrom(mem, kids, rank, n, 0)
  {
  }

  lemma NodeWithoutList(mem: Mem, n: JsonNode)
    requires Sealed(mem) && n in mem && (mem[n].tag.Leaf? || (mem[n].head == null && mem[n].tail == null))
    ensures NodeVerdict(mem, n, 1) == if TextsPass(mem[n].key, mem[n].tag) then Passed else Failed
  {
    hide TextsPass;
  }

  lemma NodeWithList(mem: Mem, n: JsonNode, left: nat)
    requires Sealed(mem) && n in mem && !mem[n].tag.Leaf? && mem[n].tail != null
    requires mem[n].head != null && mem[mem[n].head].prev == null
    ensures NodeVerdict(mem, n, left + 1)
            == if TextsPass(mem[n].key, mem[n].tag) then ListVerdict(mem, n, mem[n].head, null, left) else Failed
  {
    hide TextsPass, ListVerdict;
  }

  lemma TextFromStep(mem: Mem, kids: Kids, rank: Rank, n: JsonNode, i: nat)
    requires Ranked(kids, rank) && n in kids && i < |kids[n]|
    ensures kids[n][i] in kids
    ensures TextFrom(mem, kids, rank, n, i)
            <==> AllText(mem, Under(kids, rank, kids[n][i])) && TextFrom(mem, kids, rank, n, i + 1)
  {
    hide AllText, Under;
  }

  lemma TextFromEnd(mem: Mem, kids: Kids, rank: Rank, n: JsonNode)
    requires Ranked(kids, rank) && n in kids
    ensures TextFrom(mem, kids, rank, n, |kids[n]|)
  {
  }

  lemma ListTurn(mem: Mem, n: JsonNode, child: JsonNode, last: JsonNode?, fuel: nat)
    requires Sealed(mem) && n in mem && child in mem && ChildPasses(mem, n, child)
    ensures ListVerdict(mem, n, child, last, fuel + 1)
            == match NodeVerdict(mem, child, fuel)
               case Passed => ListVerdict(mem, n, mem[child].next, child, fuel)
               case other => other
  {
    hide NodeVerdict, ChildPasses;
  }

  /** What the next child and the others behind it decide is decided with the fuel for both. */
  lemma ListJoins(mem: Mem, n: JsonNode, child: JsonNode, last: JsonNode?, next: JsonNode?, one: nat, others: nat)
    requires Sealed(mem) && n in mem && child in mem && ChildPasses(mem, n, child) && next == mem[child].next
    requires NodeVerdict(mem, child, one) != Running && ListVerdict(mem, n, next, child, others) != Running
    ensures ListVerdict(mem, n, child, last, one + others + 1)
            == if NodeVerdict(mem, child, one) == Passed then ListVerdict(mem, n, next, child, others) else Failed
  {
    MoreFuel(mem, child, one, one + others);
    MoreListFuel(mem, n, next, child, others, one + others);
    ListTurn(mem, n, child, last, one + others);
    hide NodeVerdict, ListVerdict, ChildPasses;
  }

  lemma ListStops(mem: Mem, n: JsonNode, last: JsonNode?)
    requires Sealed(mem) && n in mem && last == mem[n].tail
    ensures ListVerdict(mem, n, null, last, 1) == Passed
  {
  }

  lemma {:induction false} ListEnds(mem: Mem, kids: Kids, rank: Rank, n: JsonNode, i: nat) returns (fuel: nat)
    requires AllLinked(mem, kids) && Ranked(kids, rank) && n in kids && Sealed(mem) && i <= |kids[n]|
    ensures var ks := kids[n];
            && (NodeAt(ks, i) == null || NodeAt(ks, i) in mem)
            && ListVerdict(mem, n, NodeAt(ks, i), NodeAt(ks, i - 1), fuel)
               == if TextFrom(mem, kids, rank, n, i) then Passed else Failed
    decreases rank[n], |kids[n]| - i
  {
    hide *;
    var ks := kids[n];
    if i == |ks| {
      TextFromEnd(mem, kids, rank, n);
      EndOfList(mem, kids, rank, n);
      fuel := 1;
    } else {
      TurnOfList(mem, kids, rank, n, i);
      TextFromStep(mem, kids, rank, n, i);
      var one := CheckEnds(mem, kids, rank, ks[i]);
      var others := ListEnds(mem, kids, rank, n, i + 1);
      fuel := one + others + 1;
      ListJoins(mem, n, ks[i], NodeAt(ks, i - 1), NodeAt(ks, i + 1), one, others);
    }
  }

  lemma EndOfList(mem: Mem, kids: Kids, rank: Rank, n: JsonNode)
    requires AllLinked(mem, kids) && Ranked(kids, rank) && n in kids && Sealed(mem)
    ensures var ks := kids[n];
            && n in mem && NodeAt(ks, |ks|) == null
            && ListVerdict(mem, n, NodeAt(ks, |ks|), NodeAt(ks, |ks| - 1), 1) == Passed
  {
    Ends(mem, kids, rank, n);
    ListStops(mem, n, NodeAt(kids[n], |kids[n]| - 1));
    hide Ranked, ListVerdict, Sealed;
  }

  lemma TurnOfList(mem: Mem, kids: Kids, rank: Rank, n: JsonNode, i: nat)
    requires AllLinked(mem, kids) && Ranked(kids, rank) && n in kids && Sealed(mem) && i < |kids[n]|
    ensures var ks := kids[n];
            && n in mem && ks[i] in kids && ks[i] in mem && 0 <= rank[ks[i]] < rank[n] && NodeAt(ks, i) == ks[i]
            && ChildPasses(mem, n, ks[i]) && mem[ks[i]].next == NodeAt(ks, i + 1)
  {
    Visited(mem, kids, rank, n, i);
    hide Ranked, ChildPasses, Sealed;
  }

  /** json_check on a node of a forest. */
  method CheckForest(f: Forest, node: JsonNode) returns (ok: bool)
    requires f.Valid() && node in f.kids
    ensures ok <==> AllText(f.State(), Under(f.kids, f.rank, node))
  {
    hide AllLinked, Ranked, Ledger, StateOf, Sealed, Current, AllText, Under, NodeVerdict;
    ValidIsSealed(f);
    ghost var fuel := CheckEnds(f.State(), f.kids, f.rank, node);
    ok := Check(node, f.State(), fuel);
  }

  // ---------------------------------------------------------------- what the parser builds

  lemma {:induction false} ShownFirstPass(mem: Mem, kids: Kids, rank: Rank, n: JsonNode, j: T.Json, i: nat)
    requires AllLinked(mem, kids) && Ranked(kids, rank) && Sealed(mem) && Shows(kids, KeyMap(mem), n, j) && T.Clean(j)
    requires n in kids && i <= |kids[n]|
    ensures AllText(mem, UnderFirst(kids, rank, n, i))
    decreases j, i, 0
  {
    hide AllText, TextsPass, AllLinked, Ranked, Sealed, Under, UnderFirst, Shows, T.Clean, KeyMap;
    UnderUnfolds(kids, rank, n);
    AllTextNone(mem);
    if i > 0 {
      ChildPassesText(mem, kids, rank, n, j, i - 1);
      ShownFirstPass(mem, kids, rank, n, j, i - 1);
      UnderStep(kids, rank, n, i - 1);
      AllTextConcat(mem, UnderFirst(kids, rank, n, i - 1), Under(kids, rank, kids[n][i - 1]));
    }
  }

  lemma {:induction false} ChildPassesText(mem: Mem, kids: Kids, rank: Rank, n: JsonNode, j: T.Json, i: nat)
    requires AllLinked(mem, kids) && Ranked(kids, rank) && Sealed(mem) && Shows(kids, KeyMap(mem), n, j) && T.Clean(j)
    requires i < |kids[n]|
    ensures kids[n][i] in kids && AllText(mem, Under(kids, rank, kids[n][i]))
    decreases j, i
  {
    Visited(mem, kids, rank, n, i);
    var c := kids[n][i];
    hide AllText, AllLinked, Ranked, Under;
    match j
    case Arr(items) =>
      ShownPasses(mem, kids, rank, c, items[i]);
    case Obj(members) =>
      assert KeyIs(KeyMap(mem), c, members[i].key);
      ShownPasses(mem, kids, rank, c, members[i].value);
    case _ =>
  }

  /** Under a node that stands for a clean value, with a key that is UTF-8, everything is UTF-8. */
  lemma {:induction false} ShownPasses(mem: Mem, kids: Kids, rank: Rank, n: JsonNode, j: T.Json)
    requires AllLinked(mem, kids) && Ranked(kids, rank) && Sealed(mem) && Shows(kids, KeyMap(mem), n, j) && T.Clean(j)
    requires mem[n].key.Some? ==> Utf8.IsText(UpToNul(mem[n].key.value))
    ensures AllText(mem, Under(kids, rank, n))
    decreases j, |kids[n]| + 1
  {
    ShownFirstPass(mem, kids, rank, n, j, |kids[n]|);
    UnderUnfolds(kids, rank, n);
    AllTextEnds(mem, n);
    AllTextConcat(mem, UnderFirst(kids, rank, n, |kids[n]|), [n]);
    LeafPasses(mem, kids, n, j);
    hide AllText, TextsPass, AllLinked, Ranked, Under, UnderFirst;
  }

  lemma LeafPasses(mem: Mem, kids: Kids, n: JsonNode, j: T.Json)
    requires n in mem && mem[n].tag == n.tag && Shows(kids, KeyMap(mem), n, j) && T.Clean(j)
    requires mem[n].key.Some? ==> Utf8.IsText(UpToNul(mem[n].key.value))
    ensures TextsPass(mem[n].key, mem[n].tag)
  {
  }

  /** Whatever json_decode builds passes json_check. */
  lemma DecodedPasses(mem: Mem, kids: Kids, rank: Rank, kids0: Kids, keys0: Keys, n: JsonNode, text: seq<byte>)
    requires AllLinked(mem, kids) && Ranked(kids, rank) && Sealed(mem)
    requires 0 !in text && T.Decode(text).Some? && Built(kids0, keys0, kids, KeyMap(mem), n, T.Decode(text).value)
    ensures AllText(mem, Under(kids, rank, n))
  {
    hide AllText, AllLinked, Ranked, Under, Shows, T.Decode, T.Clean;
    R.DecodedIsSound(text);
    Unlisted(mem, kids, rank, n);
    RootFacts(mem, kids, n);
    assert Kept(kids - kids0.Keys, KeyMap(mem), kids, KeyMap(mem));
    ShowsKept(kids - kids0.Keys, KeyMap(mem), kids, KeyMap(mem), n, T.Decode(text).value);
    ShownPasses(mem, kids, rank, n, T.Decode(text).value);
  }

  /** json_check is true of whatever json_decode builds. */
  lemma DecodedChecks(mem: Mem, kids: Kids, rank: Rank, kids0: Kids, keys0: Keys, n: JsonNode, text: seq<byte>)
    returns (fuel: nat)
    requires AllLinked(mem, kids) && Ranked(kids, rank) && Sealed(mem)
    requires 0 !in text && T.Decode(text).Some? && Built(kids0, keys0, kids, KeyMap(mem), n, T.Decode(text).value)
    ensures n in mem && NodeVerdict(mem, n, fuel) == Passed
  {
    DecodedPasses(mem, kids, rank, kids0, keys0, n, text);
    fuel := CheckEnds(mem, kids, rank, n);
  }
}
