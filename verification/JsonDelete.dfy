/**
 * json_delete and json_check of json.c on the linked nodes of JsonTree: what one call of
 * json_delete frees, and that json_check accepts exactly the lists of the invariant.
 */
module JsonDelete {
  import opened Bytes
  import opened JsonTree

  // ---------------------------------------------------------------- what lies under a node

  /** The nodes under the first i children of n: each after everything under it. */
  ghost function UnderFirst(kids: Kids, rank: Rank, n: JsonNode, i: nat): seq<JsonNode>
    requires Ranked(kids, rank) && n in kids && i <= |kids[n]|
    decreases rank[n], i
  {
    if i == 0 then [] else UnderFirst(kids, rank, n, i - 1) + Under(kids, rank, kids[n][i - 1])
  }

  /** The nodes under n and n itself, in the order in which json_delete is done with them. */
  ghost function Under(kids: Kids, rank: Rank, n: JsonNode): seq<JsonNode>
    requires Ranked(kids, rank) && n in kids
    decreases rank[n], |kids[n]| + 1
  {
    UnderFirst(kids, rank, n, |kids[n]|) + [n]
  }

  ghost function Elements(s: seq<JsonNode>): set<JsonNode> {
    set x | x in s
  }

  lemma {:induction false} UnderChild(kids: Kids, rank: Rank, n: JsonNode, i: nat, x: JsonNode)
    requires Ranked(kids, rank) && n in kids && i <= |kids[n]|
    ensures x in UnderFirst(kids, rank, n, i)
            <==> exists j :: 0 <= j < i && x in Under(kids, rank, kids[n][j])
    decreases i
  {
    if i > 0 {
      UnderChild(kids, rank, n, i - 1, x);
    }
  }

  lemma {:induction false} UnderIsBelow(mem: Mem, kids: Kids, rank: Rank, n: JsonNode, x: JsonNode)
    requires AllLinked(mem, kids) && Ranked(kids, rank) && n in kids && x in Under(kids, rank, n)
    ensures x in kids && n in Above(mem, kids, rank, x) && rank[x] <= rank[n]
    decreases rank[n]
  {
    if x in UnderFirst(kids, rank, n, |kids[n]|) {
      UnderChild(kids, rank, n, |kids[n]|, x);
      var j :| 0 <= j < |kids[n]| && x in Under(kids, rank, kids[n][j]);
      UnderIsBelow(mem, kids, rank, kids[n][j], x);
      AboveIsUpward(mem, kids, rank, x, n, kids[n][j]);
    }
  }

  /** Under(n) is closed downward. */
  lemma {:induction false} UnderIsClosed(kids: Kids, rank: Rank, n: JsonNode, p: JsonNode, x: JsonNode)
    requires Ranked(kids, rank) && n in kids && p in Under(kids, rank, n) && p in kids && x in kids[p]
    ensures x in Under(kids, rank, n)
    decreases rank[n]
  {
    if p == n {
      var j :| 0 <= j < |kids[n]| && kids[n][j] == x;
      assert x in Under(kids, rank, kids[n][j]);
      UnderChild(kids, rank, n, |kids[n]|, x);
    } else {
      UnderChild(kids, rank, n, |kids[n]|, p);
      var j :| 0 <= j < |kids[n]| && p in Under(kids, rank, kids[n][j]);
      UnderIsClosed(kids, rank, kids[n][j], p, x);
      UnderChild(kids, rank, n, |kids[n]|, x);
    }
  }

  lemma {:induction false} BelowIsUnder(mem: Mem, kids: Kids, rank: Rank, n: JsonNode, x: JsonNode)
    requires AllLinked(mem, kids) && Ranked(kids, rank) && n in kids && x in kids
    requires n in Above(mem, kids, rank, x)
    ensures x in Under(kids, rank, n)
    decreases MaxRank(rank) - rank[x]
  {
    if x != n {
      ParentRank(mem, kids, rank, x);
      BelowIsUnder(mem, kids, rank, n, mem[x].parent);
      UnderIsClosed(kids, rank, n, mem[x].parent, x);
    }
  }

  /** Under(n) holds exactly the nodes from which the parent pointers lead to n. */
  lemma UnderExactly(mem: Mem, kids: Kids, rank: Rank, n: JsonNode, x: JsonNode)
    requires AllLinked(mem, kids) && Ranked(kids, rank) && n in kids
    ensures x in Under(kids, rank, n) <==> x in kids && n in Above(mem, kids, rank, x)
  {
    if x in Under(kids, rank, n) {
      UnderIsBelow(mem, kids, rank, n, x);
    }
    if x in kids && n in Above(mem, kids, rank, x) {
      BelowIsUnder(mem, kids, rank, n, x);
    }
  }

  // ---------------------------------------------------------------- each node once

  /** Upwards from a node there is at most one child of n. */
  lemma {:induction false} OneChildAbove(mem: Mem, kids: Kids, rank: Rank, n: JsonNode, x: JsonNode, a: JsonNode,
                                         b: JsonNode)
    requires AllLinked(mem, kids) && Ranked(kids, rank) && n in kids && x in kids
    requires a in kids[n] && b in kids[n]
    requires a in Above(mem, kids, rank, x) && b in Above(mem, kids, rank, x)
    ensures a == b
    decreases MaxRank(rank) - rank[x]
  {
    if x != a && x != b {
      ParentRank(mem, kids, rank, x);
      OneChildAbove(mem, kids, rank, n, mem[x].parent, a, b);
    } else if a != b {
      ChildNotAbove(mem, kids, rank, n, a, b);
      ChildNotAbove(mem, kids, rank, n, b, a);
    }
  }

  lemma ChildNotAbove(mem: Mem, kids: Kids, rank: Rank, n: JsonNode, a: JsonNode, b: JsonNode)
    requires AllLinked(mem, kids) && Ranked(kids, rank) && n in kids && a in kids[n] && b in kids[n] && a != b
    ensures a in kids && b !in Above(mem, kids, rank, a)
  {
    ListedOnce(mem, kids, n, a);
    var j :| 0 <= j < |kids[n]| && kids[n][j] == b;
    if b in Above(mem, kids, rank, n) {
      RankGrowsUpward(mem, kids, rank, n, b, kids, rank);
    }
  }

  lemma NoneDistinct()
    ensures Distinct([])
  {
  }

  lemma ConcatDistinct(s: seq<JsonNode>, t: seq<JsonNode>)
    requires Distinct(s) && Distinct(t) && forall x :: x in t ==> x !in s
    ensures Distinct(s + t)
  {
    forall i, j | 0 <= i < j < |s + t| ensures (s + t)[i] != (s + t)[j] {
      if i < |s| <= j {
        assert t[j - |s|] in t;
      }
    }
  }

  lemma {:induction false} UnderFirstDistinct(mem: Mem, kids: Kids, rank: Rank, n: JsonNode, i: nat)
    requires AllLinked(mem, kids) && Ranked(kids, rank) && n in kids && i <= |kids[n]|
    ensures Distinct(UnderFirst(kids, rank, n, i)) && n !in UnderFirst(kids, rank, n, i)
    decreases rank[n], i
  {
    hide AllLinked, Distinct;
    if i == 0 {
      NoneDistinct();
    } else {
      UnderFirstDistinct(mem, kids, rank, n, i - 1);
      UnderDistinct(mem, kids, rank, kids[n][i - 1]);
      NextIsApart(mem, kids, rank, n, i - 1);
      ConcatDistinct(UnderFirst(kids, rank, n, i - 1), Under(kids, rank, kids[n][i - 1]));
    }
  }

  /** What lies under one child is apart from what lies under the ones before it. */
  lemma NextIsApart(mem: Mem, kids: Kids, rank: Rank, n: JsonNode, i: nat)
    requires AllLinked(mem, kids) && Ranked(kids, rank) && n in kids && i < |kids[n]|
    ensures n !in Under(kids, rank, kids[n][i])
    ensures forall x :: x in Under(kids, rank, kids[n][i]) ==> x !in UnderFirst(kids, rank, n, i)
  {
    var c := kids[n][i];
    assert Linked(mem, n, kids[n]) && forall j :: 0 <= j < i ==> kids[n][j] != c;
    if n in Under(kids, rank, c) {
      UnderIsBelow(mem, kids, rank, c, n);
    }
    forall x | x in Under(kids, rank, c) ensures x !in UnderFirst(kids, rank, n, i) {
      UnderIsBelow(mem, kids, rank, c, x);
      UnderChild(kids, rank, n, i, x);
      if x in UnderFirst(kids, rank, n, i) {
        var j :| 0 <= j < i && x in Under(kids, rank, kids[n][j]);
        UnderIsBelow(mem, kids, rank, kids[n][j], x);
        OneChildAbove(mem, kids, rank, n, x, c, kids[n][j]);
      }
    }
  }

  /** No node is listed twice: json_delete frees nothing twice. */
  lemma {:induction false} UnderDistinct(mem: Mem, kids: Kids, rank: Rank, n: JsonNode)
    requires AllLinked(mem, kids) && Ranked(kids, rank) && n in kids
    ensures Distinct(Under(kids, rank, n))
    decreases rank[n], |kids[n]| + 1
  {
    UnderFirstDistinct(mem, kids, rank, n, |kids[n]|);
    ConcatDistinct(UnderFirst(kids, rank, n, |kids[n]|), [n]);
  }

  // ---------------------------------------------------------------- lists outside do not matter

  /** Under(n) depends on nothing but the lists of the nodes under n. */
  lemma {:induction false} UnderFirstSame(kids: Kids, rank: Rank, kids': Kids, rank': Rank, n: JsonNode, i: nat)
    requires Ranked(kids, rank) && Ranked(kids', rank') && n in kids && n in kids'
    requires i <= |kids[n]| && i <= |kids'[n]| && kids'[n][..i] == kids[n][..i]
    requires forall x :: x in UnderFirst(kids, rank, n, i) ==> x in kids' && x in kids && kids'[x] == kids[x]
    ensures UnderFirst(kids', rank', n, i) == UnderFirst(kids, rank, n, i)
    decreases rank[n], i
  {
    if i > 0 {
      var c := kids[n][i - 1];
      assert kids'[n][i - 1] == kids'[n][..i][i - 1] == kids[n][..i][i - 1] == c;
      assert kids'[n][..i - 1] == kids'[n][..i][..i - 1] == kids[n][..i - 1];
      UnderFirstSame(kids, rank, kids', rank', n, i - 1);
      UnderSame(kids, rank, kids', rank', c);
    }
  }

  lemma {:induction false} UnderSame(kids: Kids, rank: Rank, kids': Kids, rank': Rank, n: JsonNode)
    requires Ranked(kids, rank) && Ranked(kids', rank') && n in kids
    requires forall x :: x in Under(kids, rank, n) ==> x in kids' && x in kids && kids'[x] == kids[x]
    ensures n in kids' && Under(kids', rank', n) == Under(kids, rank, n)
    decreases rank[n], |kids[n]| + 1
  {
    assert n in Under(kids, rank, n);
    UnderFirstSame(kids, rank, kids', rank', n, |kids[n]|);
  }

  // ---------------------------------------------------------------- json_delete

  /** The first k children of node are gone with everything under them. */
  ghost predicate HalfDone(kids1: Kids, rank1: Rank, kids: Kids, rank: Rank, node: JsonNode, k: nat)
    requires Ranked(kids1, rank1) && node in kids1 && k <= |kids1[node]|
  {
    var gone := Elements(UnderFirst(kids1, rank1, node, k));
    kids == (kids1 - gone)[node := kids1[node][k..]] && rank == rank1 - gone
  }

  lemma StartSame(mem: Mem, kids: Kids, rank: Rank, node: JsonNode, i: nat, kids1: Kids)
    requires AllLinked(mem, kids) && Ranked(kids, rank) && node in kids && Ranked(kids1, rank)
    requires kids1 == WithoutChild(kids, mem[node].parent, i)
    ensures Under(kids1, rank, node) == Under(kids, rank, node)
  {
    forall x | x in Under(kids, rank, node) ensures x in kids && kids1[x] == kids[x] {
      UnderIsBelow(mem, kids, rank, node, x);
      if mem[node].parent != null {
        ParentRank(mem, kids, rank, node);
      }
    }
    UnderSame(kids, rank, kids1, rank, node);
  }

  lemma StepSame(mem1: Mem, kids1: Kids, rank1: Rank, kids: Kids, rank: Rank, node: JsonNode, k: nat)
    requires AllLinked(mem1, kids1) && Ranked(kids1, rank1) && Ranked(kids, rank)
    requires node in kids1 && k < |kids1[node]| && HalfDone(kids1, rank1, kids, rank, node, k)
    ensures kids1[node][k] in kids && Under(kids, rank, kids1[node][k]) == Under(kids1, rank1, kids1[node][k])
  {
    var c := kids1[node][k];
    NextIsApart(mem1, kids1, rank1, node, k);
    forall x | x in Under(kids1, rank1, c) ensures x in kids1 && x in kids && kids[x] == kids1[x] {
      UnderIsBelow(mem1, kids1, rank1, c, x);
    }
    UnderSame(kids1, rank1, kids, rank, c);
  }

  /** Deleting the next child keeps HalfDone. */
  lemma StepDone(kids1: Kids, rank1: Rank, kids: Kids, rank: Rank, kids2: Kids, rank2: Rank, node: JsonNode, k: nat,
                 under: seq<JsonNode>)
    requires Ranked(kids1, rank1) && node in kids1 && k < |kids1[node]|
    requires HalfDone(kids1, rank1, kids, rank, node, k)
    requires under == Under(kids1, rank1, kids1[node][k]) && node !in under
    requires kids2 == WithoutChild(kids, node, 0) - Elements(under) && rank2 == rank - Elements(under)
    ensures HalfDone(kids1, rank1, kids2, rank2, node, k + 1)
    ensures UnderFirst(kids1, rank1, node, k + 1) == UnderFirst(kids1, rank1, node, k) + under
  {
    var before := UnderFirst(kids1, rank1, node, k);
    assert UnderFirst(kids1, rank1, node, k + 1) == before + under;
    assert Elements(before + under) == Elements(before) + Elements(under);
    assert kids[node][..0] + kids[node][1..] == kids1[node][k + 1..];
  }

  lemma NoneDone(kids: Kids, rank: Rank, node: JsonNode)
    requires Ranked(kids, rank) && node in kids
    ensures HalfDone(kids, rank, kids, rank, node, 0) && UnderFirst(kids, rank, node, 0) == []
  {
    assert Elements([]) == {} && kids - {} == kids && rank - {} == rank;
    assert kids[node][0..] == kids[node];
  }

  lemma AllDone(kids1: Kids, rank1: Rank, kids: Kids, rank: Rank, node: JsonNode)
    requires Ranked(kids1, rank1) && node in kids1 && HalfDone(kids1, rank1, kids, rank, node, |kids1[node]|)
    ensures Under(kids1, rank1, node) == UnderFirst(kids1, rank1, node, |kids1[node]|) + [node]
    ensures node in kids && kids[node] == [] && kids - {node} == kids1 - Elements(Under(kids1, rank1, node))
    ensures rank - {node} == rank1 - Elements(Under(kids1, rank1, node))
  {
    var below := UnderFirst(kids1, rank1, node, |kids1[node]|);
    assert Elements(below + [node]) == Elements(below) + {node};
  }

  lemma NeighboursKnown(mem: Mem, kids: Kids, rank: Rank, n: JsonNode, i: nat)
    requires AllLinked(mem, kids) && Ranked(kids, rank) && n in kids
    requires var p := mem[n].parent; p != null && p in kids ==> i < |kids[p]| && kids[p][i] == n
    ensures NeighboursIn(mem, n)
  {
    assert Placed(mem, kids, n);
    if mem[n].parent != null {
      RemoveFacts(mem, kids, rank, n, i);
    }
  }

  lemma StillThere(kids1: Kids, rank1: Rank, kids: Kids, rank: Rank, node: JsonNode, k: nat)
    requires Ranked(kids1, rank1) && node in kids1 && k <= |kids1[node]|
    requires HalfDone(kids1, rank1, kids, rank, node, k)
    ensures node in kids && kids[node] == kids1[node][k..] && kids.Keys <= kids1.Keys
    ensures k < |kids1[node]| ==> kids[node] != [] && kids[node][0] == kids1[node][k]
    ensures NodeAt(kids[node], 1) == NodeAt(kids1[node], k + 1)
  {
  }

  /** The first child, and its place in the list. */
  lemma FirstChild(mem: Mem, kids: Kids, n: JsonNode)
    requires AllLinked(mem, kids) && n in kids
    ensures mem[n].head == NodeAt(kids[n], 0) && (mem[n].tag.Leaf? ==> kids[n] == [])
    ensures kids[n] != [] ==>
              && kids[n][0] in kids && mem[kids[n][0]].parent == n
              && mem[kids[n][0]].next == NodeAt(kids[n], 1)
  {
    assert Linked(mem, n, kids[n]);
    if kids[n] != [] {
      assert InPlace(mem, n, kids[n], 0);
    }
  }

  /** A root stays one while lists only get shorter. */
  lemma StillRoot(mem1: Mem, kids1: Kids, mem: Mem, kids: Kids, n: JsonNode)
    requires AllLinked(mem1, kids1) && AllLinked(mem, kids) && n in kids1 && n in kids
    requires mem1[n].parent == null && kids.Keys <= kids1.Keys
    requires forall m, x :: m in kids && x in kids[m] ==> x in kids1[m]
    ensures mem[n].parent == null && mem[n].key == None
  {
    assert Placed(mem, kids, n);
    if mem[n].parent != null {
      ListedOnce(mem1, kids1, mem[n].parent, n);
    }
  }

  lemma ListsShrink(kids1: Kids, rank1: Rank, kids: Kids, rank: Rank, node: JsonNode, k: nat)
    requires Ranked(kids1, rank1) && node in kids1 && k <= |kids1[node]|
    requires HalfDone(kids1, rank1, kids, rank, node, k)
    ensures kids.Keys <= kids1.Keys && forall m, x :: m in kids && x in kids[m] ==> x in kids1[m]
  {
  }

  /** Everything the loop body needs to know of the next child before it is deleted. */
  lemma NextChild(mem1: Mem, kids1: Kids, rank1: Rank, mem: Mem, kids: Kids, rank: Rank, node: JsonNode, k: nat)
    requires AllLinked(mem1, kids1) && Ranked(kids1, rank1) && AllLinked(mem, kids) && Ranked(kids, rank)
    requires node in kids1 && k < |kids1[node]| && HalfDone(kids1, rank1, kids, rank, node, k)
    ensures var c := kids1[node][k];
            && c in kids1 && c in kids && 0 <= rank[c] < rank1[node] && kids.Keys <= kids1.Keys
            && node in kids && |kids[node]| > 0 && kids[node][0] == c
            && mem[c].parent == node && mem[c].next == NodeAt(kids1[node], k + 1)
            && Under(kids, rank, c) == Under(kids1, rank1, c) && node !in Under(kids1, rank1, c)
  {
    hide AllLinked, Under, UnderFirst;
    StillThere(kids1, rank1, kids, rank, node, k);
    FirstChild(mem, kids, node);
    StepSame(mem1, kids1, rank1, kids, rank, node, k);
    NextIsApart(mem1, kids1, rank1, node, k);
  }

  lemma KeysStep(keys: Keys, before: seq<JsonNode>, under: seq<JsonNode>)
    ensures (keys - Elements(before)) - Elements(under) == keys - Elements(before + under)
    ensures keys - Elements([]) == keys
  {
    assert Elements(before + under) == Elements(before) + Elements(under);
  }

  lemma KeysLast(keys: Keys, below: seq<JsonNode>, node: JsonNode)
    ensures (keys[node := None] - Elements(below)) - {node} == keys - Elements(below + [node])
  {
    assert Elements(below + [node]) == Elements(below) + {node};
  }

  /** The loop of json_delete. */
  method DeleteChildren(f: Forest, node: JsonNode)
    requires f.Valid() && node in f.kids && node.parent == null
    modifies f, f.kids.Keys
    ensures f.Valid() && f.kids.Keys <= old(f.kids.Keys)
    ensures old(Ranked(f.kids, f.rank))
    ensures HalfDone(old(f.kids), old(f.rank), f.kids, f.rank, node, |old(f.kids[node])|)
    ensures f.freed == old(f.freed + UnderFirst(f.kids, f.rank, node, |f.kids[node]|))
    ensures f.Keys() == old(f.Keys() - Elements(UnderFirst(f.kids, f.rank, node, |f.kids[node]|)))
    ensures f.Loose() == old(f.Loose())
    decreases f.rank[node], 0
  {
    hide AllLinked, Ranked, Ledger, StateOf, Under, UnderFirst, HalfDone, Elements, KeyMap, Owned;
    ghost var keys := f.Keys();
    ghost var mem1, kids1, rank1 := f.State(), f.kids, f.rank;
    StateAt(f.kids.Keys, node);
    FirstChild(mem1, kids1, node);
    NoneDone(kids1, rank1, node);
    KeysStep(keys, [], []);
    ghost var k := 0;
    if !node.tag.Leaf? {
      var child := node.head;
      while child != null
        invariant f.Valid() && k <= |kids1[node]| && child == NodeAt(kids1[node], k)
        invariant HalfDone(kids1, rank1, f.kids, f.rank, node, k) && f.kids.Keys <= kids1.Keys
        invariant f.freed == old(f.freed) + UnderFirst(kids1, rank1, node, k)
        invariant f.Keys() == keys - Elements(UnderFirst(kids1, rank1, node, k)) && f.Loose() == old(f.Loose())
        decreases |kids1[node]| - k
      {
        ghost var kids, rank := f.kids, f.rank;
        NextChild(mem1, kids1, rank1, f.State(), kids, rank, node, k);
        StateAt(kids.Keys, child);
        ghost var under := Under(kids1, rank1, child);
        var next := child.next;
        Delete(f, child, 0);
        KeysStep(keys, UnderFirst(kids1, rank1, node, k), under);
        StepDone(kids1, rank1, kids, rank, f.kids, f.rank, node, k, under);
        ListsShrink(kids1, rank1, f.kids, f.rank, node, k + 1);
        child := next;
        k := k + 1;
      }
    }
  }

  /**
   * json_delete: the node leaves its parent's list, and it and everything under it are freed,
   * children first; nothing else changes. i is the node's position in its parent's list.
   */
  method Delete(f: Forest, node: JsonNode, ghost i: nat)
    requires f.Valid() && node in f.kids && f.PlaceOf(node, i)
    modifies f, f.kids.Keys
    ensures f.Valid()
    ensures f.freed == old(f.freed + Under(f.kids, f.rank, node))
    ensures f.kids == old(WithoutChild(f.kids, node.parent, i) - Elements(Under(f.kids, f.rank, node)))
    ensures f.rank == old(f.rank - Elements(Under(f.kids, f.rank, node)))
    ensures f.Keys() == old(f.Keys() - Elements(Under(f.kids, f.rank, node))) && f.Loose() == old(f.Loose())
    decreases f.rank[node], 1
  {
    hide AllLinked, Ranked, Ledger, StateOf, Under, UnderFirst, HalfDone, Elements, KeyMap, Owned;
    ghost var mem0, kids0, rank0 := f.State(), f.kids, f.rank;
    ghost var keys0 := f.Keys();
    StateAt(kids0.Keys, node);
    NeighboursKnown(mem0, kids0, rank0, node, i);
    f.RemoveFromParent(node, i);
    ghost var mem1, kids1 := f.State(), f.kids;
    StartSame(mem0, kids0, rank0, node, i, kids1);
    StateAt(kids1.Keys, node);
    DeleteChildren(f, node);
    AllDone(kids1, rank0, f.kids, f.rank, node);
    KeysLast(keys0, UnderFirst(kids1, rank0, node, |kids1[node]|), node);
    ListsShrink(kids1, rank0, f.kids, f.rank, node, |kids1[node]|);
    StateAt(f.kids.Keys, node);
    StillRoot(mem1, kids1, f.State(), f.kids, node);
    f.Release(node);
  }
}
