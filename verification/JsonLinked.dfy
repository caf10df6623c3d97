/**
 * Values as linked nodes: which node stands for which value, and what the parser of json.c has added
 * to the nodes that were there before it.
 */
module JsonLinked {
  import opened Bytes
  import opened JsonTree
  import opened JsonDelete
  import T = JsonText

  // ---------------------------------------------------------------- what a node stands for

  /** The node n stands for j; of all lists only those in kids are looked at. */
  ghost predicate Shows(kids: Kids, keys: Keys, n: JsonNode, j: T.Json)
    decreases j
  {
    && n in kids
    && match j
       case Arr(items) =>
         && n.tag == Array && |kids[n]| == |items|
         && (forall i :: 0 <= i < |items| ==> Shows(kids, keys, kids[n][i], items[i]))
       case Obj(members) =>
         && n.tag == Object && |kids[n]| == |members|
         && (forall i :: 0 <= i < |members| ==> KeyIs(keys, kids[n][i], members[i].key))
         && (forall i :: 0 <= i < |members| ==> Shows(kids, keys, kids[n][i], members[i].value))
       case _ => n.tag == Leaf(j) && kids[n] == []
  }

  ghost predicate KeyIs(keys: Keys, n: JsonNode, key: seq<byte>) { n in keys && keys[n] == Some(key) }

  /** A node stands for at most one value. */
  lemma {:induction false} ShowsOne(kids: Kids, keys: Keys, n: JsonNode, j: T.Json, k: T.Json)
    requires Shows(kids, keys, n, j) && Shows(kids, keys, n, k)
    ensures j == k
    decreases j
  {
    match j
    case Arr(items) =>
      forall i | 0 <= i < |items| ensures items[i] == k.items[i] {
        ShowsOne(kids, keys, kids[n][i], items[i], k.items[i]);
      }
    case Obj(members) =>
      forall i | 0 <= i < |members| ensures members[i] == k.members[i] {
        assert KeyIs(keys, kids[n][i], members[i].key) && KeyIs(keys, kids[n][i], k.members[i].key);
        ShowsOne(kids, keys, kids[n][i], members[i].value, k.members[i].value);
      }
    case _ =>
  }

  /** The lists are still there, and the nodes in them have kept their keys. */
  ghost predicate Kept(kids: Kids, keys: Keys, kids': Kids, keys': Keys) {
    && (forall x :: x in kids ==> x in kids' && kids'[x] == kids[x])
    && (forall x, k :: x in kids && k in kids[x] && k in keys ==> k in keys' && keys'[k] == keys[k])
  }

  lemma {:induction false} ShowsKept(kids: Kids, keys: Keys, kids': Kids, keys': Keys, n: JsonNode, j: T.Json)
    requires Shows(kids, keys, n, j) && Kept(kids, keys, kids', keys')
    ensures Shows(kids', keys', n, j)
    decreases j
  {
    match j
    case Arr(items) =>
      forall i | 0 <= i < |items| ensures Shows(kids', keys', kids[n][i], items[i]) {
        ShowsKept(kids, keys, kids', keys', kids[n][i], items[i]);
      }
    case Obj(members) =>
      forall i | 0 <= i < |members|
        ensures Shows(kids', keys', kids[n][i], members[i].value) && KeyIs(keys', kids[n][i], members[i].key)
      {
        ShowsKept(kids, keys, kids', keys', kids[n][i], members[i].value);
        assert KeyIs(keys, kids[n][i], members[i].key) && kids[n][i] in kids[n];
      }
    case _ =>
  }

  // ---------------------------------------------------------------- one tree more

  ghost predicate Listed(kids: Kids, x: JsonNode) { exists m :: m in kids && x in kids[m] }

  /** The children of a node are nodes. */
  ghost predicate Closed(kids: Kids, keys: Keys) {
    keys.Keys == kids.Keys && forall m, x :: m in kids && x in kids[m] ==> x in kids
  }

  /** The nodes of kids0 are as they were, and all others are root and what lies under it. */
  ghost predicate Grown(kids0: Kids, keys0: Keys, kids: Kids, keys: Keys, root: JsonNode) {
    root in kids && root !in kids0 && Extended(kids0, keys0, kids, keys) && Nested(kids0, kids, root)
  }

  ghost predicate Extended(kids0: Kids, keys0: Keys, kids: Kids, keys: Keys) {
    && (forall n :: n in kids0 ==> n in kids && kids[n] == kids0[n])
    && (forall n :: n in keys0 ==> n in keys && keys[n] == keys0[n])
  }

  ghost predicate Nested(kids0: Kids, kids: Kids, root: JsonNode) {
    && (forall m, x :: m in kids && x in kids[m] ==> x != root && (x in kids0 ==> m in kids0))
    && (forall x :: x in kids && x !in kids0 && x != root ==> Listed(kids, x))
  }

  lemma GrownMade(kids0: Kids, keys0: Keys, n: JsonNode)
    requires Closed(kids0, keys0) && n !in kids0
    ensures Grown(kids0, keys0, kids0[n := []], keys0[n := None], n)
  {
  }

  /** The tree e that has been added to the tree of ret goes to the end of ret's list. */
  lemma GrownAppend(kids0: Kids, keys0: Keys, kids1: Kids, keys1: Keys, ret: JsonNode,
                    kids2: Kids, keys2: Keys, e: JsonNode, key: Option<seq<byte>>)
    requires Closed(kids0, keys0) && Closed(kids1, keys1)
    requires Grown(kids0, keys0, kids1, keys1, ret) && Grown(kids1, keys1, kids2, keys2, e)
    ensures Grown(kids0, keys0, kids2[ret := kids2[ret] + [e]], keys2[e := key], ret)
  {
    AppendNested(kids0, keys0, kids1, keys1, ret, kids2, keys2, e);
    AppendExtended(kids0, keys0, kids1, keys1, ret, kids2, keys2, e, key);
    hide Nested, Extended, Closed;
  }

  lemma AppendExtended(kids0: Kids, keys0: Keys, kids1: Kids, keys1: Keys, ret: JsonNode,
                       kids2: Kids, keys2: Keys, e: JsonNode, key: Option<seq<byte>>)
    requires Closed(kids0, keys0) && Closed(kids1, keys1)
    requires Grown(kids0, keys0, kids1, keys1, ret) && Grown(kids1, keys1, kids2, keys2, e)
    ensures ret in kids2 && Extended(kids0, keys0, kids2[ret := kids2[ret] + [e]], keys2[e := key])
  {
    hide Nested;
    assert e !in keys0;
  }

  lemma AppendNested(kids0: Kids, keys0: Keys, kids1: Kids, keys1: Keys, ret: JsonNode,
                     kids2: Kids, keys2: Keys, e: JsonNode)
    requires Closed(kids0, keys0) && Closed(kids1, keys1)
    requires Grown(kids0, keys0, kids1, keys1, ret) && Grown(kids1, keys1, kids2, keys2, e)
    ensures ret in kids2 && Nested(kids0, kids2[ret := kids2[ret] + [e]], ret)
  {
    assert ret in kids2;
    var kids3 := kids2[ret := kids2[ret] + [e]];
    hide Listed, Grown, Closed;
    forall x | x in kids3 && x !in kids0 && x != ret ensures Listed(kids3, x) {
      AppendLists(kids0, keys0, kids1, keys1, ret, kids2, keys2, e, x);
    }
    forall m, x | m in kids3 && x in kids3[m] ensures x != ret && (x in kids0 ==> m in kids0) {
      AppendNests(kids0, keys0, kids1, keys1, ret, kids2, keys2, e, m, x);
    }
  }

  lemma AppendLists(kids0: Kids, keys0: Keys, kids1: Kids, keys1: Keys, ret: JsonNode,
                    kids2: Kids, keys2: Keys, e: JsonNode, x: JsonNode)
    requires Closed(kids0, keys0) && Closed(kids1, keys1)
    requires Grown(kids0, keys0, kids1, keys1, ret) && Grown(kids1, keys1, kids2, keys2, e)
    requires x in kids2 && x !in kids0 && x != ret
    ensures ret in kids2
    ensures Listed(kids2[ret := kids2[ret] + [e]], x)
  {
    var kids3 := kids2[ret := kids2[ret] + [e]];
    if x == e {
      assert e in kids3[ret];
    } else {
      assert Listed(if x in kids1 then kids1 else kids2, x);
      var m: JsonNode :| m in kids2 && x in kids2[m];
      assert x in kids3[m];
    }
  }

  lemma AppendNests(kids0: Kids, keys0: Keys, kids1: Kids, keys1: Keys, ret: JsonNode,
                    kids2: Kids, keys2: Keys, e: JsonNode, m: JsonNode, x: JsonNode)
    requires Closed(kids0, keys0) && Closed(kids1, keys1)
    requires Grown(kids0, keys0, kids1, keys1, ret) && Grown(kids1, keys1, kids2, keys2, e)
    requires ret in kids2 && m in kids2 && x in kids2[ret := kids2[ret] + [e]][m]
    ensures x != ret && (x in kids0 ==> m in kids0)
  {
    if m != ret || x in kids2[ret] {
      assert x in kids2[m];
      assert m in kids1 ==> x in kids1[m];
    }
    hide Listed;
  }

  // ---------------------------------------------------------------- what json_delete takes away again

  lemma {:induction false} NewIsUnder(kids0: Kids, keys0: Keys, kids: Kids, keys: Keys, rank: Rank, root: JsonNode,
                                      x: JsonNode)
    requires Closed(kids0, keys0) && Ranked(kids, rank) && Grown(kids0, keys0, kids, keys, root)
    requires x in kids && x !in kids0
    ensures x in Under(kids, rank, root)
    decreases MaxRank(rank) - rank[x]
  {
    MaxRankIsMax(rank, x);
    if x != root {
      assert Listed(kids, x);
      var m :| m in kids && x in kids[m];
      var i :| 0 <= i < |kids[m]| && kids[m][i] == x;
      assert rank[x] < rank[m] && m !in kids0;
      NewIsUnder(kids0, keys0, kids, keys, rank, root, m);
      UnderIsClosed(kids, rank, root, m, x);
    }
  }

  lemma {:induction false} UnderIsNew(kids0: Kids, keys0: Keys, kids: Kids, keys: Keys, rank: Rank, root: JsonNode,
                                      n: JsonNode, x: JsonNode)
    requires Ranked(kids, rank) && Grown(kids0, keys0, kids, keys, root)
    requires n in kids && n !in kids0 && x in Under(kids, rank, n)
    ensures x in kids && x !in kids0
    decreases rank[n]
  {
    if x != n {
      UnderChild(kids, rank, n, |kids[n]|, x);
      var i :| 0 <= i < |kids[n]| && x in Under(kids, rank, kids[n][i]);
      assert kids[n][i] in kids[n];
      UnderIsNew(kids0, keys0, kids, keys, rank, root, kids[n][i], x);
    }
  }

  /** Deleting the root of what has been added restores everything. */
  lemma GrownUndone(kids0: Kids, keys0: Keys, kids: Kids, keys: Keys, rank: Rank, root: JsonNode)
    requires Closed(kids0, keys0) && Closed(kids, keys) && Ranked(kids, rank) && Grown(kids0, keys0, kids, keys, root)
    ensures kids - Elements(Under(kids, rank, root)) == kids0
    ensures keys - Elements(Under(kids, rank, root)) == keys0
  {
    forall x | x in kids ensures x in Under(kids, rank, root) <==> x !in kids0 {
      if x !in kids0 {
        NewIsUnder(kids0, keys0, kids, keys, rank, root, x);
      } else if x in Under(kids, rank, root) {
        UnderIsNew(kids0, keys0, kids, keys, rank, root, root, x);
      }
    }
    assert forall x :: x in Elements(Under(kids, rank, root)) <==> x in Under(kids, rank, root);
    hide Under;
  }

  // ---------------------------------------------------------------- the array or object under construction

  /** The children of ret stand for vals, whatever becomes of the list of ret. */
  ghost predicate Holds(kids0: Kids, kids: Kids, keys: Keys, ret: JsonNode, vals: seq<T.Json>)
    requires ret in kids
  {
    && |kids[ret]| == |vals|
    && (forall i :: 0 <= i < |vals| ==> Shows(kids - kids0.Keys - {ret}, keys, kids[ret][i], vals[i]))
  }

  /** The tree of e stands for x. */
  ghost predicate Built(kids0: Kids, keys0: Keys, kids: Kids, keys: Keys, e: JsonNode, x: T.Json) {
    Grown(kids0, keys0, kids, keys, e) && Shows(kids - kids0.Keys, keys, e, x)
  }

  lemma HoldsAppend(kids0: Kids, keys0: Keys, kids1: Kids, keys1: Keys, ret: JsonNode, vals: seq<T.Json>,
                    kids2: Kids, keys2: Keys, e: JsonNode, key: Option<seq<byte>>, x: T.Json)
    requires Closed(kids0, keys0) && Closed(kids1, keys1) && Closed(kids2, keys2)
    requires Grown(kids0, keys0, kids1, keys1, ret) && Built(kids1, keys1, kids2, keys2, e, x)
    requires Holds(kids0, kids1, keys1, ret, vals)
    ensures Holds(kids0, kids2[ret := kids2[ret] + [e]], keys2[e := key], ret, vals + [x])
  {
    hide Shows, Closed, Grown;
    AppendKeepsLists(kids0, keys0, kids1, keys1, ret, kids2, keys2, e, key);
    var part1, part3 := kids1 - kids0.Keys - {ret}, kids2[ret := kids2[ret] + [e]] - kids0.Keys - {ret};
    var keys3 := keys2[e := key];
    var part2 := kids2 - kids1.Keys;
    forall i | 0 <= i < |vals| ensures Shows(part3, keys3, kids1[ret][i], vals[i]) {
      ShowsKept(part1, keys1, part3, keys3, kids1[ret][i], vals[i]);
    }
    ShowsKept(part2, keys2, part3, keys3, e, x);
    hide Kept;
  }

  lemma AppendKeepsLists(kids0: Kids, keys0: Keys, kids1: Kids, keys1: Keys, ret: JsonNode,
                         kids2: Kids, keys2: Keys, e: JsonNode, key: Option<seq<byte>>)
    requires Closed(kids0, keys0) && Closed(kids1, keys1) && Closed(kids2, keys2)
    requires Grown(kids0, keys0, kids1, keys1, ret) && Grown(kids1, keys1, kids2, keys2, e)
    ensures ret in kids1 && ret in kids2 && kids2[ret] == kids1[ret]
    ensures var part3, keys3 := kids2[ret := kids2[ret] + [e]] - kids0.Keys - {ret}, keys2[e := key];
            && Kept(kids1 - kids0.Keys - {ret}, keys1, part3, keys3)
            && Kept(kids2 - kids1.Keys, keys2, part3, keys3)
  {
    assert ret in kids2;
    KeepsOlder(kids0, keys0, kids1, keys1, ret, kids2, keys2, e, key);
    KeepsNewer(kids0, keys0, kids1, keys1, ret, kids2, keys2, e, key);
    hide Nested, Kept, Closed;
  }

  lemma KeepsOlder(kids0: Kids, keys0: Keys, kids1: Kids, keys1: Keys, ret: JsonNode,
                   kids2: Kids, keys2: Keys, e: JsonNode, key: Option<seq<byte>>)
    requires Closed(kids1, keys1) && Closed(kids2, keys2) && ret in kids1 && ret in kids2
    requires Grown(kids1, keys1, kids2, keys2, e)
    ensures Kept(kids1 - kids0.Keys - {ret}, keys1,
                 kids2[ret := kids2[ret] + [e]] - kids0.Keys - {ret}, keys2[e := key])
  {
    hide Nested;
  }

  lemma KeepsNewer(kids0: Kids, keys0: Keys, kids1: Kids, keys1: Keys, ret: JsonNode,
                   kids2: Kids, keys2: Keys, e: JsonNode, key: Option<seq<byte>>)
    requires Closed(kids0, keys0) && Closed(kids2, keys2) && ret in kids1 && ret in kids2
    requires Grown(kids0, keys0, kids1, keys1, ret) && Grown(kids1, keys1, kids2, keys2, e)
    ensures Kept(kids2 - kids1.Keys, keys2, kids2[ret := kids2[ret] + [e]] - kids0.Keys - {ret}, keys2[e := key])
  {
    hide Listed;
  }

  lemma HoldsNothing(kids0: Kids, kids: Kids, keys: Keys, ret: JsonNode)
    requires ret in kids && kids[ret] == []
    ensures Holds(kids0, kids, keys, ret, [])
  {
  }

  lemma BuiltArray(kids0: Kids, keys0: Keys, kids: Kids, keys: Keys, ret: JsonNode, items: seq<T.Json>)
    requires Grown(kids0, keys0, kids, keys, ret) && ret.tag == Array && Holds(kids0, kids, keys, ret, items)
    ensures Built(kids0, keys0, kids, keys, ret, T.Arr(items))
  {
    var part := kids - kids0.Keys;
    assert Kept(part - {ret}, keys, part, keys);
    forall i | 0 <= i < |items| ensures Shows(part, keys, kids[ret][i], items[i]) {
      ShowsKept(part - {ret}, keys, part, keys, kids[ret][i], items[i]);
    }
  }

  ghost function Values(members: seq<T.Member>): seq<T.Json> {
    seq(|members|, i requires 0 <= i < |members| => members[i].value)
  }

  /** The children ks have the keys of the members. */
  ghost predicate KeysAre(keys: Keys, ks: seq<JsonNode>, members: seq<T.Member>) {
    |ks| == |members| && forall i :: 0 <= i < |ks| ==> KeyIs(keys, ks[i], members[i].key)
  }

  lemma BuiltObject(kids0: Kids, keys0: Keys, kids: Kids, keys: Keys, ret: JsonNode, members: seq<T.Member>)
    requires Grown(kids0, keys0, kids, keys, ret) && ret.tag == Object
    requires Holds(kids0, kids, keys, ret, Values(members)) && KeysAre(keys, kids[ret], members)
    ensures Built(kids0, keys0, kids, keys, ret, T.Obj(members))
  {
    var part := kids - kids0.Keys;
    assert Kept(part - {ret}, keys, part, keys);
    forall i | 0 <= i < |members| ensures Shows(part, keys, kids[ret][i], members[i].value) {
      assert members[i].value == Values(members)[i];
      ShowsKept(part - {ret}, keys, part, keys, kids[ret][i], members[i].value);
    }
  }

  lemma KeysAppend(kids0: Kids, keys0: Keys, kids1: Kids, keys1: Keys, ret: JsonNode, members: seq<T.Member>,
                   kids2: Kids, keys2: Keys, e: JsonNode, m: T.Member)
    requires Closed(kids1, keys1) && Closed(kids2, keys2) && ret in kids1
    requires Grown(kids1, keys1, kids2, keys2, e) && KeysAre(keys1, kids1[ret], members)
    ensures KeysAre(keys2[e := Some(m.key)], kids2[ret] + [e], members + [m])
    ensures Values(members + [m]) == Values(members) + [m.value]
  {
    var keys3, ks := keys2[e := Some(m.key)], kids1[ret];
    forall i | 0 <= i < |ks| ensures KeyIs(keys3, ks[i], members[i].key) {
      assert KeyIs(keys1, ks[i], members[i].key) && ks[i] in ks;
    }
  }

  lemma BuiltLeaf(kids0: Kids, keys0: Keys, n: JsonNode, j: T.Json)
    requires Closed(kids0, keys0) && n !in kids0 && n.tag == Leaf(j) && !j.Arr? && !j.Obj?
    ensures Built(kids0, keys0, kids0[n := []], keys0[n := None], n, j)
  {
    GrownMade(kids0, keys0, n);
  }

  // ---------------------------------------------------------------- the nodes that were there

  /** A node that no list holds is a root, with nothing but itself above it. */
  lemma Unlisted(mem: Mem, kids: Kids, rank: Rank, n: JsonNode)
    requires AllLinked(mem, kids) && Ranked(kids, rank) && n in kids && forall m :: m in kids ==> n !in kids[m]
    ensures mem[n].parent == null && Above(mem, kids, rank, n) == {n}
  {
    assert Placed(mem, kids, n);
  }

  lemma AllClosed(mem: Mem, kids: Kids, rank: Rank)
    requires AllLinked(mem, kids) && Ranked(kids, rank)
    ensures Closed(kids, KeyMap(mem))
  {
    forall m, x | m in kids && x in kids[m] ensures x in kids {
      ListedOnce(mem, kids, m, x);
    }
  }

  lemma ListsKept(mem0: Mem, kids0: Kids, mem: Mem, kids: Kids, root: JsonNode?, n: JsonNode)
    requires AllLinked(mem0, kids0) && AllLinked(mem, kids) && n in kids0
    requires || (root != null && Grown(kids0, KeyMap(mem0), kids, KeyMap(mem), root))
             || (kids == kids0 && KeyMap(mem) == KeyMap(mem0))
    ensures forall p :: p in kids0 ==> p in kids && kids[p] == kids0[p]
    ensures n in mem && n in mem0 && mem[n].key == mem0[n].key
  {
    assert KeyMap(mem)[n] == KeyMap(mem0)[n];
  }

  /** A node that was listed still is, between the same neighbours. */
  lemma ListedKept(mem0: Mem, kids0: Kids, mem: Mem, kids: Kids, n: JsonNode)
    requires AllLinked(mem0, kids0) && AllLinked(mem, kids) && n in kids0
    requires forall p :: p in kids0 ==> p in kids && kids[p] == kids0[p]
    requires n in mem0 && mem0[n].parent != null
    ensures n in mem && mem[n].parent == mem0[n].parent && mem[n].prev == mem0[n].prev && mem[n].next == mem0[n].next
  {
    var p := mem0[n].parent;
    assert Placed(mem0, kids0, n);
    hide AllLinked, Placed;
    var i :| 0 <= i < |kids0[p]| && kids0[p][i] == n;
    NeighboursListed(mem0, kids0, n, p, i);
    NeighboursListed(mem, kids, n, p, i);
  }

  /** A root still is one. */
  lemma RootKept(mem0: Mem, kids0: Kids, mem: Mem, kids: Kids, root: JsonNode?, n: JsonNode)
    requires AllLinked(mem0, kids0) && AllLinked(mem, kids) && Closed(kids0, KeyMap(mem0)) && n in kids0
    requires || (root != null && Grown(kids0, KeyMap(mem0), kids, KeyMap(mem), root))
             || (kids == kids0 && KeyMap(mem) == KeyMap(mem0))
    requires n in mem0 && mem0[n].parent == null && n in mem
    ensures mem[n].parent == null
  {
    var p := mem[n].parent;
    if p != null {
      assert Placed(mem, kids, n);
      assert p in kids0 && kids[p] == kids0[p];
      ListedOnce(mem0, kids0, p, n);
    }
  }

  lemma EndsKept(mem0: Mem, kids0: Kids, mem: Mem, kids: Kids, n: JsonNode)
    requires AllLinked(mem0, kids0) && AllLinked(mem, kids) && n in kids0 && n in kids && kids[n] == kids0[n]
    ensures n in mem && n in mem0 && mem[n].head == mem0[n].head && mem[n].tail == mem0[n].tail
    ensures mem0[n].parent == null ==> mem0[n].prev == null && mem0[n].next == null
    ensures mem[n].parent == null ==> mem[n].prev == null && mem[n].next == null
  {
    assert Linked(mem0, n, kids0[n]) && Linked(mem, n, kids[n]);
    assert Placed(mem0, kids0, n) && Placed(mem, kids, n);
    hide AllLinked;
  }

  /** The lists and keys determine all fields: a node that was there has not been touched. */
  lemma GrownKeepsCell(mem0: Mem, kids0: Kids, mem: Mem, kids: Kids, root: JsonNode?, n: JsonNode)
    requires AllLinked(mem0, kids0) && AllLinked(mem, kids) && Closed(kids0, KeyMap(mem0)) && n in kids0
    requires || (root != null && Grown(kids0, KeyMap(mem0), kids, KeyMap(mem), root))
             || (kids == kids0 && KeyMap(mem) == KeyMap(mem0))
    requires mem[n].tag == mem0[n].tag
    ensures mem[n] == mem0[n]
  {
    hide *;
    ListsKept(mem0, kids0, mem, kids, root, n);
    EndsKept(mem0, kids0, mem, kids, n);
    if mem0[n].parent != null {
      ListedKept(mem0, kids0, mem, kids, n);
    } else {
      RootKept(mem0, kids0, mem, kids, root, n);
    }
  }
}
