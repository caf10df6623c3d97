/**
 * The linked nodes of json.c: children form a doubly linked list with a parent pointer,
 * and append_node, prepend_node and json_remove_from_parent relink them in place.
 * Each operation is a sequence of assignments; what they amount to is proved on Mem, the
 * values of all fields at one moment.
 */
module JsonTree {
  import opened Bytes
  import T = JsonText

  /** A leaf is a node without children; its string, if it holds one, is the node's own. */
  datatype Tag = Leaf(value: T.Json) | Array | Object

  class JsonNode {
    const tag: Tag
    var key: Option<seq<byte>>
    var parent: JsonNode?
    var prev: JsonNode?
    var next: JsonNode?
    var head: JsonNode?
    var tail: JsonNode?

    /** mknode. */
    constructor (tag: Tag)
      ensures this.tag == tag && Fields() == Cell(tag, None, null, null, null, null, null)
    {
      this.tag, key := tag, None;
      parent, prev, next, head, tail := null, null, null, null, null;
    }

    ghost function Fields(): Cell
      reads this
    {
      Cell(tag, key, parent, prev, next, head, tail)
    }
  }

  datatype Cell = Cell(
    tag: Tag, key: Option<seq<byte>>, parent: JsonNode?,
    prev: JsonNode?, next: JsonNode?, head: JsonNode?, tail: JsonNode?)

  type Mem = map<JsonNode, Cell>
  type Kids = map<JsonNode, seq<JsonNode>>
  type Rank = map<JsonNode, nat>

  // ---------------------------------------------------------------- the invariant of json_check

  ghost function NodeAt(ks: seq<JsonNode>, i: int): JsonNode? {
    if 0 <= i < |ks| then ks[i] else null
  }

  /** The i-th of the children ks of n is linked to its neighbours and keyed as n demands. */
  ghost predicate InPlace(mem: Mem, n: JsonNode, ks: seq<JsonNode>, i: nat)
    requires i < |ks| && n in mem
  {
    && ks[i] in mem
    && var k := mem[ks[i]];
    && k.parent == n && k.prev == NodeAt(ks, i - 1) && k.next == NodeAt(ks, i + 1)
    && (if mem[n].tag == Array then k.key == None else k.key.Some?)
  }

  ghost predicate Distinct(ks: seq<JsonNode>) {
    forall i, j :: 0 <= i < j < |ks| ==> ks[i] != ks[j]
  }

  /** ks are the children of n, first to last: what json_check demands of one node. */
  ghost predicate Linked(mem: Mem, n: JsonNode, ks: seq<JsonNode>)
    requires n in mem
  {
    && mem[n].head == NodeAt(ks, 0) && mem[n].tail == NodeAt(ks, |ks| - 1)
    && (mem[n].tag.Leaf? ==> ks == [])
    && Distinct(ks)
    && (forall i :: 0 <= i < |ks| ==> InPlace(mem, n, ks, i))
  }

  /** A node has a parent that lists it, or it is a root without neighbours and key. */
  ghost predicate Placed(mem: Mem, kids: Kids, n: JsonNode)
    requires n in mem
  {
    var c := mem[n];
    if c.parent == null then c.prev == null && c.next == null && c.key == None
    else c.parent in kids && n in kids[c.parent]
  }

  ghost predicate AllLinked(mem: Mem, kids: Kids) {
    && mem.Keys == kids.Keys
    && (forall n :: n in kids ==> Linked(mem, n, kids[n]))
    && (forall n :: n in kids ==> Placed(mem, kids, n))
  }

  /** Children are nodes of smaller rank: there are no cycles. */
  ghost predicate Ranked(kids: Kids, rank: Rank) {
    && kids.Keys == rank.Keys
    && (forall n, i :: n in kids && 0 <= i < |kids[n]| ==> kids[n][i] in kids && rank[kids[n][i]] < rank[n])
  }

  // ---------------------------------------------------------------- appending

  /** The assignments of append_member and append_node. */
  ghost function AppendMem(mem: Mem, parent: JsonNode, child: JsonNode, key: Option<seq<byte>>): Mem
    requires parent in mem && child in mem && (mem[parent].tail == null || mem[parent].tail in mem)
  {
    var t := mem[parent].tail;
    var m := mem[child := mem[child].(key := key, parent := parent, prev := t, next := null)];
    var m' := if t != null then m[t := m[t].(next := child)] else m[parent := m[parent].(head := child)];
    m'[parent := m'[parent].(tail := child)]
  }

  ghost predicate KeyFits(mem: Mem, parent: JsonNode, key: Option<seq<byte>>)
    requires parent in mem
  {
    match mem[parent].tag
    case Leaf(_) => false
    case Array => key == None
    case Object => key.Some?
  }

  /** The parent of a listed child is the one that lists it. */
  lemma ListedOnce(mem: Mem, kids: Kids, n: JsonNode, k: JsonNode)
    requires AllLinked(mem, kids) && n in kids && k in kids[n]
    ensures k in mem && mem[k].parent == n
  {
    var i :| 0 <= i < |kids[n]| && kids[n][i] == k;
    assert InPlace(mem, n, kids[n], i);
  }

  lemma TailListed(mem: Mem, kids: Kids, n: JsonNode)
    requires AllLinked(mem, kids) && n in kids
    ensures mem[n].tail != null ==> mem[n].tail in mem && mem[n].tail in kids[n]
    ensures mem[n].head != null ==> mem[n].head in mem && mem[n].head in kids[n]
  {
    assert Linked(mem, n, kids[n]);
    if kids[n] != [] {
      ListedOnce(mem, kids, n, kids[n][0]);
      ListedOnce(mem, kids, n, kids[n][|kids[n]| - 1]);
    }
  }

  /** A list is untouched by changes to other fields and other nodes. */
  lemma LinkedKept(mem: Mem, mem': Mem, n: JsonNode, ks: seq<JsonNode>)
    requires n in mem && Linked(mem, n, ks) && n in mem'
    requires mem'[n].head == mem[n].head && mem'[n].tail == mem[n].tail && mem'[n].tag == mem[n].tag
    requires forall k :: k in ks ==>
               k in mem && k in mem' && mem'[k].parent == mem[k].parent && mem'[k].prev == mem[k].prev
               && mem'[k].next == mem[k].next && mem'[k].key == mem[k].key
    ensures Linked(mem', n, ks)
  {
    forall i | 0 <= i < |ks| ensures InPlace(mem', n, ks, i) {
      assert InPlace(mem, n, ks, i) && ks[i] in ks;
    }
  }

  /** append_node adds the child at the end of the parent's list and keeps the whole invariant. */
  lemma AppendKeeps(mem: Mem, kids: Kids, parent: JsonNode, child: JsonNode, key: Option<seq<byte>>)
    requires AllLinked(mem, kids) && parent in kids && child in kids
    requires mem[child].parent == null && KeyFits(mem, parent, key) && parent !in kids[parent]
    requires mem[parent].tail == null || mem[parent].tail in mem
    ensures AllLinked(AppendMem(mem, parent, child, key), kids[parent := kids[parent] + [child]])
  {
    var mem', kids' := AppendMem(mem, parent, child, key), kids[parent := kids[parent] + [child]];
    forall n | n in kids' ensures Linked(mem', n, kids'[n]) && Placed(mem', kids', n) {
      AppendKeepsNode(mem, kids, parent, child, key, n);
    }
    hide Linked, Placed, KeyFits, AppendMem;
  }

  lemma AppendKeepsNode(mem: Mem, kids: Kids, parent: JsonNode, child: JsonNode, key: Option<seq<byte>>, n: JsonNode)
    requires AllLinked(mem, kids) && parent in kids && child in kids && n in kids
    requires mem[child].parent == null && KeyFits(mem, parent, key) && parent !in kids[parent]
    requires mem[parent].tail == null || mem[parent].tail in mem
    ensures var mem', kids' := AppendMem(mem, parent, child, key), kids[parent := kids[parent] + [child]];
            n in mem' && Linked(mem', n, kids'[n]) && Placed(mem', kids', n)
  {
    var ks, mem' := kids[parent], AppendMem(mem, parent, child, key);
    TailListed(mem, kids, parent);
    if child in ks { ListedOnce(mem, kids, parent, child); }
    if n != parent {
      forall k | k in kids[n] ensures k in mem && k != child && k !in ks {
        ListedOnce(mem, kids, n, k);
        if k in ks { ListedOnce(mem, kids, parent, k); }
      }
      if ks != [] {
        ListedOnce(mem, kids, parent, ks[|ks| - 1]);
      }
      LinkedKept(mem, mem', n, kids[n]);
    } else {
      AppendedLinked(mem, parent, ks, child, key);
    }
    assert Placed(mem, kids, n);
  }

  lemma AppendedLinked(mem: Mem, parent: JsonNode, ks: seq<JsonNode>, child: JsonNode, key: Option<seq<byte>>)
    requires parent in mem && child in mem && parent !in ks && child !in ks
    requires Linked(mem, parent, ks) && KeyFits(mem, parent, key)
    requires mem[parent].tail == null || mem[parent].tail in mem
    ensures Linked(AppendMem(mem, parent, child, key), parent, ks + [child])
  {
    var mem', all := AppendMem(mem, parent, child, key), ks + [child];
    forall i | 0 <= i < |all| ensures InPlace(mem', parent, all, i) {
      if i < |ks| {
        assert InPlace(mem, parent, ks, i);
      }
    }
  }

  // ---------------------------------------------------------------- prepending

  /** The assignments of json_prepend_member and prepend_node. */
  ghost function PrependMem(mem: Mem, parent: JsonNode, child: JsonNode, key: Option<seq<byte>>): Mem
    requires parent in mem && child in mem && (mem[parent].head == null || mem[parent].head in mem)
  {
    var h := mem[parent].head;
    var m := mem[child := mem[child].(key := key, parent := parent, prev := null, next := h)];
    var m' := if h != null then m[h := m[h].(prev := child)] else m[parent := m[parent].(tail := child)];
    m'[parent := m'[parent].(head := child)]
  }

  lemma PrependedLinked(mem: Mem, parent: JsonNode, ks: seq<JsonNode>, child: JsonNode, key: Option<seq<byte>>)
    requires parent in mem && child in mem && parent !in ks && child !in ks
    requires Linked(mem, parent, ks) && KeyFits(mem, parent, key)
    requires mem[parent].head == null || mem[parent].head in mem
    ensures Linked(PrependMem(mem, parent, child, key), parent, [child] + ks)
  {
    var mem', all := PrependMem(mem, parent, child, key), [child] + ks;
    forall i | 0 <= i < |all| ensures InPlace(mem', parent, all, i) {
      if i > 0 {
        assert InPlace(mem, parent, ks, i - 1);
      }
    }
  }

  /** prepend_node adds the child in front of the parent's list and keeps the whole invariant. */
  lemma PrependKeeps(mem: Mem, kids: Kids, parent: JsonNode, child: JsonNode, key: Option<seq<byte>>)
    requires AllLinked(mem, kids) && parent in kids && child in kids
    requires mem[child].parent == null && KeyFits(mem, parent, key) && parent !in kids[parent]
    requires mem[parent].head == null || mem[parent].head in mem
    ensures AllLinked(PrependMem(mem, parent, child, key), kids[parent := [child] + kids[parent]])
  {
    var mem', kids' := PrependMem(mem, parent, child, key), kids[parent := [child] + kids[parent]];
    forall n | n in kids' ensures Linked(mem', n, kids'[n]) && Placed(mem', kids', n) {
      PrependKeepsNode(mem, kids, parent, child, key, n);
    }
    hide Linked, Placed, KeyFits, PrependMem;
  }

  lemma PrependKeepsNode(mem: Mem, kids: Kids, parent: JsonNode, child: JsonNode, key: Option<seq<byte>>, n: JsonNode)
    requires AllLinked(mem, kids) && parent in kids && child in kids && n in kids
    requires mem[child].parent == null && KeyFits(mem, parent, key) && parent !in kids[parent]
    requires mem[parent].head == null || mem[parent].head in mem
    ensures var mem', kids' := PrependMem(mem, parent, child, key), kids[parent := [child] + kids[parent]];
            n in mem' && Linked(mem', n, kids'[n]) && Placed(mem', kids', n)
  {
    var ks, mem' := kids[parent], PrependMem(mem, parent, child, key);
    TailListed(mem, kids, parent);
    if child in ks { ListedOnce(mem, kids, parent, child); }
    if n != parent {
      forall k | k in kids[n] ensures k in mem && k != child && k !in ks {
        ListedOnce(mem, kids, n, k);
        if k in ks { ListedOnce(mem, kids, parent, k); }
      }
      if ks != [] {
        ListedOnce(mem, kids, parent, ks[0]);
      }
      LinkedKept(mem, mem', n, kids[n]);
    } else {
      PrependedLinked(mem, parent, ks, child, key);
    }
    assert Placed(mem, kids, n);
  }

  // ---------------------------------------------------------------- removing

  ghost predicate NeighboursIn(mem: Mem, n: JsonNode)
    requires n in mem
  {
    var c := mem[n];
    (c.prev == null || c.prev in mem) && (c.next == null || c.next in mem) && (c.parent == null || c.parent in mem)
  }

  /** The assignments of json_remove_from_parent. */
  ghost function RemoveMem(mem: Mem, n: JsonNode): Mem
    requires n in mem && NeighboursIn(mem, n)
  {
    var c := mem[n];
    if c.parent == null then mem
    else
      var m := if c.prev != null then mem[c.prev := mem[c.prev].(next := c.next)]
               else mem[c.parent := mem[c.parent].(head := c.next)];
      var m' := if c.next != null then m[c.next := m[c.next].(prev := c.prev)]
                else m[c.parent := m[c.parent].(tail := c.prev)];
      m'[n := m'[n].(key := None, parent := null, prev := null, next := null)]
  }

  lemma NeighboursListed(mem: Mem, kids: Kids, n: JsonNode, p: JsonNode, i: nat)
    requires AllLinked(mem, kids) && p in kids && i < |kids[p]| && kids[p][i] == n
    ensures n in mem && NeighboursIn(mem, n) && mem[n].parent == p
    ensures mem[n].prev == NodeAt(kids[p], i - 1) && mem[n].next == NodeAt(kids[p], i + 1)
  {
    assert InPlace(mem, p, kids[p], i);
    if i > 0 { assert InPlace(mem, p, kids[p], i - 1); }
    if i + 1 < |kids[p]| { assert InPlace(mem, p, kids[p], i + 1); }
  }

  lemma RemovedLinked(mem: Mem, p: JsonNode, ks: seq<JsonNode>, i: nat)
    requires p in mem && i < |ks| && Linked(mem, p, ks) && p !in ks
    requires ks[i] in mem && NeighboursIn(mem, ks[i]) && mem[ks[i]].parent == p
    ensures Linked(RemoveMem(mem, ks[i]), p, ks[..i] + ks[i + 1..])
  {
    var mem', left := RemoveMem(mem, ks[i]), ks[..i] + ks[i + 1..];
    assert InPlace(mem, p, ks, i);
    forall j | 0 <= j < |left| ensures InPlace(mem', p, left, j) {
      assert InPlace(mem, p, ks, if j < i then j else j + 1);
    }
  }

  /** json_remove_from_parent takes the node out of its parent's list and keeps the whole invariant. */
  lemma RemoveKeeps(mem: Mem, kids: Kids, p: JsonNode, i: nat)
    requires AllLinked(mem, kids) && p in kids && i < |kids[p]| && p !in kids[p]
    requires kids[p][i] in mem && NeighboursIn(mem, kids[p][i])
    ensures AllLinked(RemoveMem(mem, kids[p][i]), kids[p := kids[p][..i] + kids[p][i + 1..]])
  {
    var mem', kids' := RemoveMem(mem, kids[p][i]), kids[p := kids[p][..i] + kids[p][i + 1..]];
    NeighboursListed(mem, kids, kids[p][i], p, i);
    forall m | m in kids' ensures Linked(mem', m, kids'[m]) && Placed(mem', kids', m) {
      RemoveKeepsNode(mem, kids, p, i, m);
    }
    hide Linked, Placed;
  }

  lemma RemoveKeepsNode(mem: Mem, kids: Kids, p: JsonNode, i: nat, m: JsonNode)
    requires AllLinked(mem, kids) && p in kids && i < |kids[p]| && p !in kids[p] && m in kids
    requires kids[p][i] in mem && NeighboursIn(mem, kids[p][i])
    ensures var mem', kids' := RemoveMem(mem, kids[p][i]), kids[p := kids[p][..i] + kids[p][i + 1..]];
            m in mem' && Linked(mem', m, kids'[m]) && Placed(mem', kids', m)
  {
    var ks, n := kids[p], kids[p][i];
    NeighboursListed(mem, kids, n, p, i);
    if i > 0 { ListedOnce(mem, kids, p, ks[i - 1]); }
    if i + 1 < |ks| { ListedOnce(mem, kids, p, ks[i + 1]); }
    if m == p {
      RemovedLinked(mem, p, ks, i);
    } else {
      forall k | k in kids[m] ensures k in mem && k !in ks {
        ListedOnce(mem, kids, m, k);
        if k in ks { ListedOnce(mem, kids, p, k); }
      }
      LinkedKept(mem, RemoveMem(mem, n), m, kids[m]);
    }
    RemoveKeepsPlace(mem, kids, p, i, m);
    hide Linked, Placed;
  }

  lemma RemoveKeepsPlace(mem: Mem, kids: Kids, p: JsonNode, i: nat, m: JsonNode)
    requires AllLinked(mem, kids) && p in kids && i < |kids[p]| && m in kids
    requires kids[p][i] in mem && NeighboursIn(mem, kids[p][i])
    ensures var mem', kids' := RemoveMem(mem, kids[p][i]), kids[p := kids[p][..i] + kids[p][i + 1..]];
            m in mem' && Placed(mem', kids', m)
  {
    var ks, n := kids[p], kids[p][i];
    NeighboursListed(mem, kids, n, p, i);
    assert Placed(mem, kids, m);
    RemoveKeepsCell(mem, kids, p, i, m);
    if m in ks && m != n {
      StillListed(ks, i, m);
    }
    hide Linked, RemoveMem, AllLinked;
  }

  lemma StillListed(ks: seq<JsonNode>, i: nat, m: JsonNode)
    requires i < |ks| && m in ks && m != ks[i]
    ensures m in ks[..i] + ks[i + 1..]
  {
    var j :| 0 <= j < |ks| && ks[j] == m;
    assert m == (ks[..i] + ks[i + 1..])[if j < i then j else j - 1];
  }

  /** Only the node itself changes its parent and key, and only its neighbours their links to a neighbour. */
  lemma RemoveKeepsCell(mem: Mem, kids: Kids, p: JsonNode, i: nat, m: JsonNode)
    requires AllLinked(mem, kids) && p in kids && i < |kids[p]| && m in kids
    requires kids[p][i] in mem && NeighboursIn(mem, kids[p][i])
    ensures var n, mem' := kids[p][i], RemoveMem(mem, kids[p][i]);
            && m in mem'
            && (m == n ==> mem'[m].parent == null && mem'[m].prev == null && mem'[m].next == null)
            && (m == n ==> mem'[m].key == None)
            && (m != n ==> mem'[m].parent == mem[m].parent && mem'[m].key == mem[m].key)
            && (m != n && mem[m].parent == null ==> mem'[m].prev == mem[m].prev && mem'[m].next == mem[m].next)
  {
    var ks := kids[p];
    NeighboursListed(mem, kids, ks[i], p, i);
    if i > 0 { ListedOnce(mem, kids, p, ks[i - 1]); }
    if i + 1 < |ks| { ListedOnce(mem, kids, p, ks[i + 1]); }
    hide Linked, Placed, AllLinked;
  }

  // ---------------------------------------------------------------- no cycles

  ghost function MaxRank(rank: Rank): (m: nat) {
    if rank == map[] then 0
    else
      var n :| n in rank;
      var m := MaxRank(rank - {n});
      if rank[n] > m then rank[n] else m
  }

  lemma {:induction false} MaxRankIsMax(rank: Rank, k: JsonNode)
    requires k in rank
    ensures rank[k] <= MaxRank(rank)
  {
    var n :| n in rank && MaxRank(rank) == if rank[n] > MaxRank(rank - {n}) then rank[n] else MaxRank(rank - {n});
    if k != n {
      MaxRankIsMax(rank - {n}, k);
    }
  }

  /** n, its parent, the parent's parent and so on. */
  ghost function Above(mem: Mem, kids: Kids, rank: Rank, n: JsonNode): set<JsonNode>
    requires AllLinked(mem, kids) && Ranked(kids, rank) && n in kids
    decreases MaxRank(rank) - rank[n]
  {
    if mem[n].parent == null then {n}
    else
      ParentRank(mem, kids, rank, n);
      {n} + Above(mem, kids, rank, mem[n].parent)
  }

  lemma ParentRank(mem: Mem, kids: Kids, rank: Rank, n: JsonNode)
    requires AllLinked(mem, kids) && Ranked(kids, rank) && n in kids && mem[n].parent != null
    ensures mem[n].parent in kids && n in kids[mem[n].parent]
    ensures rank[n] < rank[mem[n].parent] <= MaxRank(rank)
  {
    assert Placed(mem, kids, n);
    var p := mem[n].parent;
    var i :| 0 <= i < |kids[p]| && kids[p][i] == n;
    MaxRankIsMax(rank, p);
  }

  lemma {:induction false} AboveIsUpward(mem: Mem, kids: Kids, rank: Rank, n: JsonNode, m: JsonNode, k: JsonNode)
    requires AllLinked(mem, kids) && Ranked(kids, rank) && n in kids
    requires m in kids && k in kids[m] && k in Above(mem, kids, rank, n)
    ensures m in Above(mem, kids, rank, n)
    decreases MaxRank(rank) - rank[n]
  {
    ListedOnce(mem, kids, m, k);
    if mem[n].parent != null {
      ParentRank(mem, kids, rank, n);
      if k != n {
        AboveIsUpward(mem, kids, rank, mem[n].parent, m, k);
      } else {
        assert mem[n].parent == m;
        assert m in Above(mem, kids, rank, m);
      }
    }
  }

  /** The nodes above move over all others. */
  ghost function Raised(rank: Rank, above: set<JsonNode>): Rank {
    map n | n in rank :: if n in above then rank[n] + MaxRank(rank) + 1 else rank[n]
  }

  /** Attaching a node that is not above the parent leaves no cycle. */
  lemma AttachedRanked(mem: Mem, kids: Kids, rank: Rank, parent: JsonNode, child: JsonNode, ks: seq<JsonNode>)
    requires AllLinked(mem, kids) && Ranked(kids, rank) && parent in kids && child in kids
    requires child !in Above(mem, kids, rank, parent)
    requires forall k :: k in ks ==> k == child || k in kids[parent]
    ensures Ranked(kids[parent := ks], Raised(rank, Above(mem, kids, rank, parent)))
  {
    var above := Above(mem, kids, rank, parent);
    assert parent in above;
    forall n, k | n in kids && k in kids[n] && k in above ensures n in above {
      AboveIsUpward(mem, kids, rank, parent, n, k);
    }
    hide AllLinked, Above;
    RaisedRanked(kids, rank, above, parent, child, ks);
  }

  lemma RaisedRanked(kids: Kids, rank: Rank, above: set<JsonNode>, parent: JsonNode, child: JsonNode, ks: seq<JsonNode>)
    requires Ranked(kids, rank) && parent in kids && child in kids && parent in above && child !in above
    requires forall n, k :: n in kids && k in kids[n] && k in above ==> n in above
    requires forall k :: k in ks ==> k == child || k in kids[parent]
    ensures Ranked(kids[parent := ks], Raised(rank, above))
  {
    var r := Raised(rank, above);
    forall n, k | n in kids && k in kids[n] ensures k in kids && r[k] < r[n] {
      var i :| 0 <= i < |kids[n]| && kids[n][i] == k;
      MaxRankIsMax(rank, k);
    }
    MaxRankIsMax(rank, child);
    forall i | 0 <= i < |ks| ensures ks[i] in kids && r[ks[i]] < r[parent] {
      assert ks[i] in ks;
    }
  }

  /** Attaching a node above the parent always closes a cycle: then no ranking exists. */
  lemma AttachedAboveIsCyclic(mem: Mem, kids: Kids, rank: Rank, parent: JsonNode, child: JsonNode, ks: seq<JsonNode>,
                              r: Rank)
    requires AllLinked(mem, kids) && Ranked(kids, rank) && parent in kids
    requires child in Above(mem, kids, rank, parent) && child in ks
    requires forall k :: k in kids[parent] ==> k in ks
    ensures !Ranked(kids[parent := ks], r)
  {
    var i :| 0 <= i < |ks| && ks[i] == child;
    var more := kids[parent := ks];
    assert more[parent][i] == child;
    if Ranked(more, r) {
      RankGrowsUpward(mem, kids, rank, parent, child, more, r);
    }
  }

  /** One node decides: what the ranking becomes is one exactly if the child is not above the parent. */
  lemma AttachedRankedExactly(mem: Mem, kids: Kids, rank: Rank, parent: JsonNode, child: JsonNode, ks: seq<JsonNode>,
                              kids': Kids)
    requires AllLinked(mem, kids) && Ranked(kids, rank) && parent in kids && child in kids
    requires (ks == kids[parent] + [child] || ks == [child] + kids[parent]) && kids' == kids[parent := ks]
    ensures if child !in Above(mem, kids, rank, parent)
            then Ranked(kids', Raised(rank, Above(mem, kids, rank, parent)))
            else forall r: Rank :: !Ranked(kids', r)
  {
    if child !in Above(mem, kids, rank, parent) {
      AttachedRanked(mem, kids, rank, parent, child, ks);
    } else {
      forall r: Rank ensures !Ranked(kids', r) {
        AttachedAboveIsCyclic(mem, kids, rank, parent, child, ks, r);
      }
    }
    hide AllLinked, Ranked, Above, Raised;
  }

  /** json_append_element(a, a): the array becomes its own parent and only child. */
  lemma SelfAppendIsCyclic(a: JsonNode, r: Rank)
    ensures AppendMem(map[a := NewCell(Array)], a, a, None) == map[a := Cell(Array, None, a, null, null, a, a)]
    ensures !Ranked(map[a := [a]], r)
  {
    var kids: Kids := map[a := [a]];
    assert kids[a][0] == a;
  }

  lemma {:induction false} RankGrowsUpward(mem: Mem, kids: Kids, rank: Rank, n: JsonNode, a: JsonNode, more: Kids,
                                           r: Rank)
    requires AllLinked(mem, kids) && Ranked(kids, rank) && n in kids && a in Above(mem, kids, rank, n)
    requires Ranked(more, r) && kids.Keys <= more.Keys
    requires forall m, k :: m in kids && k in kids[m] ==> k in more[m]
    ensures a in more && r[n] <= r[a]
    decreases MaxRank(rank) - rank[n]
  {
    if a != n {
      ParentRank(mem, kids, rank, n);
      var p := mem[n].parent;
      RankGrowsUpward(mem, kids, rank, p, a, more, r);
      assert n in more[p];
      var i :| 0 <= i < |more[p]| && more[p][i] == n;
    }
  }

  lemma RemovedRanked(kids: Kids, rank: Rank, p: JsonNode, ks: seq<JsonNode>)
    requires Ranked(kids, rank) && p in kids && forall k :: k in ks ==> k in kids[p]
    ensures Ranked(kids[p := ks], rank)
  {
    forall i | 0 <= i < |ks| ensures ks[i] in kids && rank[ks[i]] < rank[p] {
      assert ks[i] in kids[p];
      var j :| 0 <= j < |kids[p]| && kids[p][j] == ks[i];
    }
  }

  // ---------------------------------------------------------------- making a node

  ghost function NewCell(tag: Tag): Cell {
    Cell(tag, None, null, null, null, null, null)
  }

  lemma MadeLinked(mem: Mem, kids: Kids, n: JsonNode, tag: Tag)
    requires AllLinked(mem, kids) && n !in kids
    ensures AllLinked(mem[n := NewCell(tag)], kids[n := []])
  {
    var mem', kids' := mem[n := NewCell(tag)], kids[n := []];
    forall m | m in kids' ensures Linked(mem', m, kids'[m]) && Placed(mem', kids', m) {
      if m != n {
        assert Linked(mem, m, kids[m]) && Placed(mem, kids, m);
        KidsKept(mem, mem', kids, m, n);
      }
    }
  }

  lemma KidsKept(mem: Mem, mem': Mem, kids: Kids, m: JsonNode, n: JsonNode)
    requires AllLinked(mem, kids) && n !in kids && m in kids
    requires mem'.Keys == mem.Keys + {n} && forall k :: k in mem ==> mem'[k] == mem[k]
    ensures Linked(mem', m, kids[m])
  {
    forall k | k in kids[m] ensures k in mem {
      ListedOnce(mem, kids, m, k);
    }
    assert Linked(mem, m, kids[m]);
    hide AllLinked, Linked;
    LinkedKept(mem, mem', m, kids[m]);
  }

  lemma MadeRanked(kids: Kids, rank: Rank, n: JsonNode)
    requires Ranked(kids, rank) && n !in kids
    ensures Ranked(kids[n := []], rank[n := 0])
  {
    forall m, i | m in kids && 0 <= i < |kids[m]| ensures kids[m][i] in kids && kids[m][i] != n {
    }
  }

  // ---------------------------------------------------------------- the assignments themselves

  /** json_remove_from_parent for a node that has a parent. */
  method Unlink(node: JsonNode, parent: JsonNode)
    requires node.parent == parent && parent != node && node.prev != node && node.next != node
    requires node.prev != parent && node.next != parent && (node.prev == null || node.prev != node.next)
    modifies node, parent
    modifies if node.prev != null then {node.prev} else {}
    modifies if node.next != null then {node.next} else {}
    ensures node.Fields() == old(node.Fields()).(key := None, parent := null, prev := null, next := null)
    ensures old(node.prev) != null ==> old(node.prev).Fields() == old(node.prev.Fields()).(next := old(node.next))
    ensures old(node.next) != null ==> old(node.next).Fields() == old(node.next.Fields()).(prev := old(node.prev))
    ensures parent.Fields() == old(parent.Fields()).(
              head := if old(node.prev) == null then old(node.next) else old(parent.head),
              tail := if old(node.next) == null then old(node.prev) else old(parent.tail))
  {
    if node.prev != null {
      node.prev.next := node.next;
    } else {
      parent.head := node.next;
    }
    if node.next != null {
      node.next.prev := node.prev;
    } else {
      parent.tail := node.prev;
    }
    node.key, node.parent, node.prev, node.next := None, null, null, null;
  }

  // ---------------------------------------------------------------- the operations

  ghost function StateOf(nodes: set<JsonNode>): (mem: Mem)
    reads nodes
    ensures mem.Keys == nodes
  {
    map n | n in nodes :: n.Fields()
  }

  lemma StateAt(nodes: set<JsonNode>, n: JsonNode)
    requires n in nodes
    ensures StateOf(nodes)[n] == n.Fields()
  {
  }

  /** The nodes are as mem says. */
  ghost predicate Current(mem: Mem)
    reads mem.Keys
  {
    forall n :: n in mem ==> n.Fields() == mem[n]
  }

  method NewNode(ghost nodes: set<JsonNode>, tag: Tag) returns (n: JsonNode)
    ensures fresh(n) && n !in nodes && n.tag == tag && n.parent == null
    ensures StateOf(nodes + {n}) == old(StateOf(nodes))[n := NewCell(tag)]
  {
    n := new JsonNode(tag);
  }

  /** The key of append_member, then append_node. */
  method LinkLast(parent: JsonNode, child: JsonNode, key: Option<seq<byte>>)
    requires parent.tail != parent && parent.tail != child
    modifies parent, child, if parent.tail != null then {parent.tail} else {}
    ensures child.key == key && child.parent == parent && child.prev == old(parent.tail) && child.next == null
    ensures parent.tail == child && parent.head == if old(parent.tail) == null then child else old(parent.head)
    ensures parent != child ==> child.head == old(child.head) && child.tail == old(child.tail)
    ensures parent != child ==> parent.key == old(parent.key) && parent.parent == old(parent.parent)
    ensures parent != child ==> parent.prev == old(parent.prev) && parent.next == old(parent.next)
    ensures var s := old(parent.tail); s != null ==> s.Fields() == old(s.Fields()).(next := child)
  {
    child.key := key;
    child.parent := parent;
    child.prev := parent.tail;
    child.next := null;
    if parent.tail != null {
      parent.tail.next := child;
    } else {
      parent.head := child;
    }
    parent.tail := child;
  }

  method LinkLastIn(ghost nodes: set<JsonNode>, parent: JsonNode, child: JsonNode, key: Option<seq<byte>>)
    requires parent in nodes && child in nodes && (parent.tail == null || parent.tail in nodes)
    requires parent.tail != parent && parent.tail != child
    modifies parent, child, if parent.tail != null then {parent.tail} else {}
    ensures StateOf(nodes) == AppendMem(old(StateOf(nodes)), parent, child, key)
    ensures child.parent == parent && child.key == key
  {
    LinkLast(parent, child, key);
  }

  /** The key of json_prepend_member, then prepend_node. */
  method LinkFirst(parent: JsonNode, child: JsonNode, key: Option<seq<byte>>)
    requires parent.head != parent && parent.head != child
    modifies parent, child, if parent.head != null then {parent.head} else {}
    ensures child.key == key && child.parent == parent && child.next == old(parent.head) && child.prev == null
    ensures parent.head == child && parent.tail == if old(parent.head) == null then child else old(parent.tail)
    ensures parent != child ==> child.head == old(child.head) && child.tail == old(child.tail)
    ensures parent != child ==> parent.key == old(parent.key) && parent.parent == old(parent.parent)
    ensures parent != child ==> parent.prev == old(parent.prev) && parent.next == old(parent.next)
    ensures var s := old(parent.head); s != null ==> s.Fields() == old(s.Fields()).(prev := child)
  {
    child.key := key;
    child.parent := parent;
    child.prev := null;
    child.next := parent.head;
    if parent.head != null {
      parent.head.prev := child;
    } else {
      parent.tail := child;
    }
    parent.head := child;
  }

  method LinkFirstIn(ghost nodes: set<JsonNode>, parent: JsonNode, child: JsonNode, key: Option<seq<byte>>)
    requires parent in nodes && child in nodes && (parent.head == null || parent.head in nodes)
    requires parent.head != parent && parent.head != child
    modifies parent, child, if parent.head != null then {parent.head} else {}
    ensures StateOf(nodes) == PrependMem(old(StateOf(nodes)), parent, child, key)
    ensures child.parent == parent && child.key == key
  {
    LinkFirst(parent, child, key);
  }

  method UnlinkIn(ghost nodes: set<JsonNode>, node: JsonNode, parent: JsonNode)
    requires node in nodes && NeighboursIn(StateOf(nodes), node)
    requires node.parent == parent && parent != node && node.prev != node && node.next != node
    requires node.prev != parent && node.next != parent && (node.prev == null || node.prev != node.next)
    modifies node, parent
    modifies if node.prev != null then {node.prev} else {}
    modifies if node.next != null then {node.next} else {}
    ensures StateOf(nodes) == RemoveMem(old(StateOf(nodes)), node)
    ensures node.parent == null && node.key == None
  {
    Unlink(node, parent);
  }

  lemma AttachFacts(mem: Mem, kids: Kids, rank: Rank, parent: JsonNode, child: JsonNode)
    requires AllLinked(mem, kids) && Ranked(kids, rank) && parent in kids
    requires child in kids && mem[child].parent == null
    ensures parent !in kids[parent]
    ensures mem[parent].tail == null || mem[parent].tail in mem
    ensures mem[parent].head == null || mem[parent].head in mem
    ensures mem[parent].tail != parent && mem[parent].tail != child
    ensures mem[parent].head != parent && mem[parent].head != child
  {
    TailListed(mem, kids, parent);
    NotOwnChild(kids, rank, parent);
    if child in kids[parent] { ListedOnce(mem, kids, parent, child); }
  }

  lemma NotOwnChild(kids: Kids, rank: Rank, n: JsonNode)
    requires Ranked(kids, rank) && n in kids
    ensures n !in kids[n]
  {
    forall i | 0 <= i < |kids[n]| ensures kids[n][i] != n {
      assert rank[kids[n][i]] < rank[n];
    }
  }

  lemma RemoveFacts(mem: Mem, kids: Kids, rank: Rank, n: JsonNode, i: nat)
    requires AllLinked(mem, kids) && Ranked(kids, rank) && n in kids && mem[n].parent != null
    requires mem[n].parent in kids ==> i < |kids[mem[n].parent]| && kids[mem[n].parent][i] == n
    ensures var c := mem[n];
            && c.parent in kids && NeighboursIn(mem, n) && c.parent !in kids[c.parent]
            && c.parent != n && c.prev != n && c.next != n && c.prev != c.parent && c.next != c.parent
            && (c.prev == null || c.prev != c.next)
  {
    var p := mem[n].parent;
    assert Placed(mem, kids, n);
    NeighboursListed(mem, kids, n, p, i);
    NotOwnChild(kids, rank, p);
    assert Linked(mem, p, kids[p]);
  }

  lemma ParentListed(mem: Mem, kids: Kids, n: JsonNode)
    requires AllLinked(mem, kids) && n in kids && mem[n].parent != null
    ensures mem[n].parent in kids && n in kids[mem[n].parent]
  {
    assert Placed(mem, kids, n);
  }

  // ---------------------------------------------------------------- freeing a node

  /** Nothing refers to a root without children. */
  lemma NoReference(mem: Mem, kids: Kids, n: JsonNode, m: JsonNode)
    requires AllLinked(mem, kids) && n in kids && m in kids && m != n
    requires mem[n].parent == null && kids[n] == []
    ensures mem[m].parent != n && n !in kids[m]
  {
    assert Placed(mem, kids, m);
    if n in kids[m] { ListedOnce(mem, kids, m, n); }
  }

  lemma FreedLinked(mem: Mem, kids: Kids, n: JsonNode)
    requires AllLinked(mem, kids) && n in kids && mem[n].parent == null && kids[n] == []
    ensures AllLinked(mem - {n}, kids - {n})
  {
    var mem', kids' := mem - {n}, kids - {n};
    forall m | m in kids' ensures Linked(mem', m, kids'[m]) && Placed(mem', kids', m) {
      assert Placed(mem, kids, m);
      NoReference(mem, kids, n, m);
      forall k | k in kids[m] ensures k in mem && k != n {
        ListedOnce(mem, kids, m, k);
      }
      assert Linked(mem, m, kids[m]);
      LinkedKept(mem, mem', m, kids[m]);
    }
  }

  lemma FreedRanked(mem: Mem, kids: Kids, rank: Rank, n: JsonNode)
    requires AllLinked(mem, kids) && Ranked(kids, rank) && n in kids && mem[n].parent == null && kids[n] == []
    ensures Ranked(kids - {n}, rank - {n})
  {
    forall m, i | m in kids - {n} && 0 <= i < |kids[m]| ensures kids[m][i] != n {
      NoReference(mem, kids, n, m);
      assert kids[m][i] in kids[m];
    }
  }

  lemma FreedAll(mem: Mem, kids: Kids, rank: Rank, freed: seq<JsonNode>, n: JsonNode)
    requires AllLinked(mem, kids) && Ranked(kids, rank) && Ledger(kids, freed)
    requires n in kids && n in mem && mem[n].parent == null && mem[n].key == None && kids[n] == []
    ensures AllLinked(mem - {n}, kids - {n}) && Ranked(kids - {n}, rank - {n}) && Ledger(kids - {n}, freed + [n])
    ensures KeyMap(mem - {n}) == KeyMap(mem) - {n}
    ensures Owned(KeyMap(mem)) == Owned(KeyMap(mem - {n})) + One(HoldsString(n))
  {
    hide *;
    KeysFreed(mem, n);
    KeyAt(mem, n);
    OwnedFreed(KeyMap(mem), n);
    LedgerFreed(kids, freed, n);
    FreedLinked(mem, kids, n);
    FreedRanked(mem, kids, rank, n);
  }

  lemma StateWithout(nodes: set<JsonNode>, n: JsonNode)
    ensures StateOf(nodes - {n}) == StateOf(nodes) - {n}
  {
  }

  lemma RootFacts(mem: Mem, kids: Kids, n: JsonNode)
    requires AllLinked(mem, kids) && n in kids && mem[n].parent == null
    ensures mem[n].key == None
  {
    assert Placed(mem, kids, n);
  }

  lemma KeyAt(mem: Mem, n: JsonNode)
    requires n in mem
    ensures n in KeyMap(mem) && KeyMap(mem)[n] == mem[n].key
  {
  }

  lemma RootKey(mem: Mem, kids: Kids, n: JsonNode)
    requires AllLinked(mem, kids) && n in kids && mem[n].parent == null
    ensures n in KeyMap(mem) && KeyMap(mem)[n] == None && KeyMap(mem)[n := None] == KeyMap(mem)
  {
    RootFacts(mem, kids, n);
  }

  lemma AppendKeepsAll(mem: Mem, kids: Kids, freed: seq<JsonNode>, parent: JsonNode, child: JsonNode,
                       key: Option<seq<byte>>)
    requires AllLinked(mem, kids) && Ledger(kids, freed) && parent in kids && parent in mem && child in kids
    requires child in mem
    requires mem[child].parent == null && KeyFits(mem, parent, key) && parent !in kids[parent]
    requires (mem[parent].tail == null || mem[parent].tail in mem) && mem[parent].tail != child
    ensures var mem', kids' := AppendMem(mem, parent, child, key), kids[parent := kids[parent] + [child]];
            && AllLinked(mem', kids') && Ledger(kids', freed) && KeyMap(mem') == KeyMap(mem)[child := key]
            && Owned(KeyMap(mem')) == Owned(KeyMap(mem)) + One(key.Some?)
  {
    hide *;
    AppendKeeps(mem, kids, parent, child, key);
    KeysAppended(mem, parent, child, key);
    RootKey(mem, kids, child);
    OwnedKeyed(KeyMap(mem), child, key);
    LedgerKept(kids, freed, parent, kids[parent] + [child]);
  }

  lemma PrependKeepsAll(mem: Mem, kids: Kids, freed: seq<JsonNode>, parent: JsonNode, child: JsonNode,
                        key: Option<seq<byte>>)
    requires AllLinked(mem, kids) && Ledger(kids, freed) && parent in kids && parent in mem && child in kids
    requires child in mem
    requires mem[child].parent == null && KeyFits(mem, parent, key) && parent !in kids[parent]
    requires (mem[parent].head == null || mem[parent].head in mem) && mem[parent].head != child
    ensures var mem', kids' := PrependMem(mem, parent, child, key), kids[parent := [child] + kids[parent]];
            && AllLinked(mem', kids') && Ledger(kids', freed) && KeyMap(mem') == KeyMap(mem)[child := key]
            && Owned(KeyMap(mem')) == Owned(KeyMap(mem)) + One(key.Some?)
  {
    hide *;
    PrependKeeps(mem, kids, parent, child, key);
    KeysPrepended(mem, parent, child, key);
    RootKey(mem, kids, child);
    OwnedKeyed(KeyMap(mem), child, key);
    LedgerKept(kids, freed, parent, [child] + kids[parent]);
  }

  /** kids after the i-th child of p is taken out; a root is in no list. */
  ghost function WithoutChild(kids: Kids, p: JsonNode?, i: nat): Kids {
    if p != null && p in kids && i < |kids[p]| then kids[p := kids[p][..i] + kids[p][i + 1..]] else kids
  }

  // ---------------------------------------------------------------- strings that are owned

  type Keys = map<JsonNode, Option<seq<byte>>>

  ghost function KeyMap(mem: Mem): (keys: Keys)
    ensures keys.Keys == mem.Keys
  {
    map n | n in mem :: mem[n].key
  }

  ghost predicate HoldsString(n: JsonNode) { n.tag.Leaf? && n.tag.value.Str? }

  ghost function Keyed(keys: Keys): set<JsonNode> { set n | n in keys && keys[n].Some? }

  ghost function Stringed(keys: Keys): set<JsonNode> { set n | n in keys && HoldsString(n) }

  /** How many strings the nodes own: keys, and the strings of leaves. */
  ghost function Owned(keys: Keys): nat { |Keyed(keys)| + |Stringed(keys)| }

  ghost function One(b: bool): nat { if b then 1 else 0 }

  lemma OwnedMade(keys: Keys, n: JsonNode)
    requires n !in keys
    ensures Owned(keys[n := None]) == Owned(keys) + One(HoldsString(n))
  {
    KeyedMade(keys, n);
    StringedMade(keys, n);
    hide Keyed, Stringed, HoldsString;
  }

  lemma KeyedMade(keys: Keys, n: JsonNode)
    requires n !in keys
    ensures Keyed(keys[n := None]) == Keyed(keys)
  {
  }

  lemma StringedMade(keys: Keys, n: JsonNode)
    requires n !in keys
    ensures n !in Stringed(keys)
    ensures Stringed(keys[n := None]) == if HoldsString(n) then Stringed(keys) + {n} else Stringed(keys)
  {
    hide HoldsString;
  }

  lemma OwnedKeyed(keys: Keys, n: JsonNode, key: Option<seq<byte>>)
    requires n in keys && keys[n] == None
    ensures Owned(keys[n := key]) == Owned(keys) + One(key.Some?)
  {
    var keys' := keys[n := key];
    assert Keyed(keys') == if key.Some? then Keyed(keys) + {n} else Keyed(keys);
    assert Stringed(keys') == Stringed(keys);
  }

  lemma OwnedUnkeyed(keys: Keys, n: JsonNode)
    requires n in keys
    ensures Owned(keys) == Owned(keys[n := None]) + One(keys[n].Some?)
  {
    OwnedKeyed(keys[n := None], n, keys[n]);
    assert keys[n := None][n := keys[n]] == keys;
  }

  lemma OwnedFreed(keys: Keys, n: JsonNode)
    requires n in keys && keys[n] == None
    ensures Owned(keys) == Owned(keys - {n}) + One(HoldsString(n))
  {
    OwnedMade(keys - {n}, n);
    assert (keys - {n})[n := None] == keys;
  }

  lemma KeysMade(mem: Mem, n: JsonNode, tag: Tag)
    ensures KeyMap(mem[n := NewCell(tag)]) == KeyMap(mem)[n := None]
  {
  }

  lemma KeysAppended(mem: Mem, parent: JsonNode, child: JsonNode, key: Option<seq<byte>>)
    requires parent in mem && child in mem && (mem[parent].tail == null || mem[parent].tail in mem)
    requires mem[parent].tail != child
    ensures KeyMap(AppendMem(mem, parent, child, key)) == KeyMap(mem)[child := key]
  {
  }

  lemma KeysPrepended(mem: Mem, parent: JsonNode, child: JsonNode, key: Option<seq<byte>>)
    requires parent in mem && child in mem && (mem[parent].head == null || mem[parent].head in mem)
    requires mem[parent].head != child
    ensures KeyMap(PrependMem(mem, parent, child, key)) == KeyMap(mem)[child := key]
  {
  }

  lemma KeysRemoved(mem: Mem, n: JsonNode)
    requires n in mem && NeighboursIn(mem, n) && mem[n].parent != null
    requires mem[n].parent != n && mem[n].prev != n && mem[n].next != n
    ensures KeyMap(RemoveMem(mem, n)) == KeyMap(mem)[n := None]
  {
  }

  lemma KeysFreed(mem: Mem, n: JsonNode)
    ensures KeyMap(mem - {n}) == KeyMap(mem) - {n}
  {
  }

  /** Every node is freed at most once, and none that is still there. */
  ghost predicate Ledger(kids: Kids, freed: seq<JsonNode>) {
    Distinct(freed) && forall n :: n in freed ==> n !in kids
  }

  lemma LedgerFreed(kids: Kids, freed: seq<JsonNode>, n: JsonNode)
    requires Ledger(kids, freed) && n in kids
    ensures Ledger(kids - {n}, freed + [n])
  {
    assert forall i :: 0 <= i < |freed| ==> freed[i] in freed;
  }

  lemma LedgerKept(kids: Kids, freed: seq<JsonNode>, n: JsonNode, ks: seq<JsonNode>)
    requires Ledger(kids, freed) && (n in kids || n !in freed)
    ensures Ledger(kids[n := ks], freed)
  {
  }

  /** All nodes that have been made and not been freed. */
  class Forest {
    ghost var kids: Kids
    ghost var rank: Rank
    /** The arguments of free, in order. */
    ghost var freed: seq<JsonNode>
    /** How many strings are allocated. */
    ghost var live: int

    constructor ()
      ensures Valid() && kids == map[] && freed == [] && live == 0
    {
      kids, rank, freed, live := map[], map[], [], 0;
    }

    ghost function State(): Mem
      reads this, kids.Keys
    {
      StateOf(kids.Keys)
    }

    ghost predicate Valid()
      reads this, kids.Keys
    {
      AllLinked(State(), kids) && Ranked(kids, rank) && Ledger(kids, freed)
    }

    ghost function Keys(): Keys
      reads this, kids.Keys
    {
      KeyMap(State())
    }

    /** The allocated strings that no node owns. */
    ghost function Loose(): int
      reads this, kids.Keys
    {
      live - Owned(Keys())
    }

    /** parent, the node over it and so on: attaching one of them under parent would close a cycle. */
    ghost function NodesAbove(parent: JsonNode): set<JsonNode>
      requires Valid() && parent in kids
      reads this, kids.Keys
    {
      Above(State(), kids, rank, parent)
    }

    /** json_mkarray, json_mkobject and the other makers. */
    method MakeNode(tag: Tag) returns (n: JsonNode)
      requires Valid()
      modifies this
      ensures Valid() && fresh(n) && n.tag == tag && n.parent == null
      ensures kids == old(kids)[n := []] && freed == old(freed) && live == old(live)
      ensures Keys() == old(Keys())[n := None] && Loose() == old(Loose()) - One(HoldsString(n))
    {
      hide AllLinked, Ranked, Ledger, StateOf, NewCell, KeyMap, Owned, One, HoldsString;
      ghost var mem := State();
      n := NewNode(kids.Keys, tag);
      MadeLinked(mem, kids, n, tag);
      MadeRanked(kids, rank, n);
      assert kids[n := []].Keys == kids.Keys + {n};
      LedgerKept(kids, freed, n, []);
      KeysMade(mem, n, tag);
      OwnedMade(KeyMap(mem), n);
      kids, rank := kids[n := []], rank[n := 0];
    }

    /** json_append_element and json_append_member. */
    method AppendNode(parent: JsonNode, child: JsonNode, key: Option<seq<byte>>)
      requires Valid() && parent in kids && child in kids && child.parent == null
      requires KeyFits(State(), parent, key)
      modifies this`kids, this`rank, parent, child, if parent.tail != null then {parent.tail} else {}
      ensures kids == old(kids)[parent := old(kids)[parent] + [child]]
      ensures if old(child !in NodesAbove(parent)) then Valid()
              else AllLinked(State(), kids) && Ledger(kids, freed) && forall r: Rank :: !Ranked(kids, r)
      ensures child.parent == parent && child.key == key
      ensures Keys() == old(Keys())[child := key] && Loose() == old(Loose()) - One(key.Some?)
    {
      hide AllLinked, Ranked, Ledger, Above, Raised, KeyFits, StateOf, KeyMap, Owned, One, AppendMem;
      ghost var mem := State();
      StateAt(kids.Keys, parent);
      StateAt(kids.Keys, child);
      AttachFacts(mem, kids, rank, parent, child);
      ghost var ks := kids[parent] + [child];
      AppendKeepsAll(mem, kids, freed, parent, child, key);
      LinkLastIn(kids.Keys, parent, child, key);
      kids, rank := kids[parent := ks], Raised(rank, Above(mem, kids, rank, parent));
      assert kids.Keys == old(kids.Keys);
      AttachedRankedExactly(mem, old(kids), old(rank), parent, child, ks, kids);
    }

    /** json_prepend_element and json_prepend_member. */
    method PrependNode(parent: JsonNode, child: JsonNode, key: Option<seq<byte>>)
      requires Valid() && parent in kids && child in kids && child.parent == null
      requires KeyFits(State(), parent, key)
      modifies this`kids, this`rank, parent, child, if parent.head != null then {parent.head} else {}
      ensures kids == old(kids)[parent := [child] + old(kids)[parent]]
      ensures if old(child !in NodesAbove(parent)) then Valid()
              else AllLinked(State(), kids) && Ledger(kids, freed) && forall r: Rank :: !Ranked(kids, r)
      ensures child.parent == parent && child.key == key
      ensures Keys() == old(Keys())[child := key] && Loose() == old(Loose()) - One(key.Some?)
    {
      hide AllLinked, Ranked, Ledger, Above, Raised, KeyFits, StateOf, KeyMap, Owned, One, PrependMem;
      ghost var mem := State();
      StateAt(kids.Keys, parent);
      StateAt(kids.Keys, child);
      AttachFacts(mem, kids, rank, parent, child);
      ghost var ks := [child] + kids[parent];
      PrependKeepsAll(mem, kids, freed, parent, child, key);
      LinkFirstIn(kids.Keys, parent, child, key);
      kids, rank := kids[parent := ks], Raised(rank, Above(mem, kids, rank, parent));
      assert kids.Keys == old(kids.Keys);
      AttachedRankedExactly(mem, old(kids), old(rank), parent, child, ks, kids);
    }

    /** json_remove_from_parent; i is the position of the node in its parent's list. */
    method RemoveFromParent(node: JsonNode, ghost i: nat)
      requires Valid() && node in kids && PlaceOf(node, i)
      modifies this`kids, this`live, node, if node.parent != null then {node.parent} else {}
      modifies if node.prev != null then {node.prev} else {}
      modifies if node.next != null then {node.next} else {}
      ensures Valid() && node.parent == null && node.key == None && rank == old(rank) && freed == old(freed)
      ensures kids == old(WithoutChild(kids, node.parent, i))
      ensures Keys() == old(Keys())[node := None] && Loose() == old(Loose())
    {
      hide AllLinked, Ranked, Ledger, StateOf, KeyMap, Owned;
      var parent := node.parent;
      if parent != null {
        RemoveFrom(node, parent, i);
      } else {
        StateAt(kids.Keys, node);
        RootFacts(State(), kids, node);
        RootKey(State(), kids, node);
      }
    }

    method RemoveFrom(node: JsonNode, parent: JsonNode, ghost i: nat)
      requires Valid() && node in kids && PlaceOf(node, i) && node.parent == parent
      modifies this`kids, this`live, node, parent
      modifies if node.prev != null then {node.prev} else {}
      modifies if node.next != null then {node.next} else {}
      ensures Valid() && node.parent == null && node.key == None && rank == old(rank) && freed == old(freed)
      ensures kids == old(WithoutChild(kids, parent, i))
      ensures Keys() == old(Keys())[node := None] && Loose() == old(Loose())
    {
      hide AllLinked, Ranked, Ledger, StateOf, RemoveMem, InPlace, NodeAt, Linked, NeighboursIn, Placed;
      hide KeyMap, Owned, One;
      ghost var mem := State();
      StateAt(kids.Keys, node);
      ParentListed(mem, kids, node);
      ghost var left := kids[parent][..i] + kids[parent][i + 1..];
      RemoveFacts(mem, kids, rank, node, i);
      RemoveKeeps(mem, kids, parent, i);
      RemovedRanked(kids, rank, parent, left);
      KeysRemoved(mem, node);
      KeyAt(mem, node);
      OwnedUnkeyed(KeyMap(mem), node);
      LedgerKept(kids, freed, parent, left);
      live := live - One(node.key.Some?);
      UnlinkIn(kids.Keys, node, parent);
      kids := kids[parent := left];
      assert kids.Keys == old(kids.Keys);
    }

    /** free(node): nothing the node owns may be left, and nothing may lead to it. */
    method Release(node: JsonNode)
      requires Valid() && node in kids && kids[node] == [] && node.parent == null && node.key == None
      modifies this
      ensures Valid() && kids == old(kids) - {node} && rank == old(rank) - {node}
      ensures freed == old(freed) + [node]
      ensures Keys() == old(Keys()) - {node} && Loose() == old(Loose())
    {
      hide AllLinked, Ranked, Ledger, StateOf, KeyMap, Owned, One, HoldsString;
      ghost var mem := State();
      StateAt(kids.Keys, node);
      FreedAll(mem, kids, rank, freed, node);
      StateWithout(kids.Keys, node);
      live := live - One(HoldsString(node));
      kids, rank, freed := kids - {node}, rank - {node}, freed + [node];
      assert kids.Keys == old(kids.Keys) - {node};
    }

    ghost predicate PlaceOf(node: JsonNode, i: nat)
      reads this, node
    {
      var p := node.parent;
      p != null && p in kids ==> i < |kids[p]| && kids[p][i] == node
    }
  }

  lemma CurrentAt(mem: Mem, n: JsonNode)
    requires Current(mem) && n in mem
    ensures n.Fields() == mem[n]
  {
  }

  lemma StateIsCurrent(f: Forest)
    requires f.Valid()
    ensures Current(f.State())
  {
    forall n | n in f.kids ensures n.Fields() == f.State()[n] {
      StateAt(f.kids.Keys, n);
    }
  }
}
