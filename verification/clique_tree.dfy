/** The greedy clique-tree builder of the `bi2bif`/`bi2xml` conversions
    (`buildCTree`, `getRoot`, `getMaxIntersec`): the root is the first factor
    of smallest scope, and a breadth-first walk lets each dequeued node adopt
    every remaining factor whose overlap with it is the largest one left.
    Factors no node adopts are dropped without a report. */
module CliqueTree {
  import opened Results
  import opened Registry

  /** The ids a scope mentions. */
  function Ids(scope: seq<Var>): (ids: set<int>)
    ensures forall v :: v in scope ==> v.id in ids
  {
    set v | v in scope :: v.id
  }

  /** `len(f.Variables().Intersec(g.Variables()))`: how many variables, by
      id, two factors share. */
  function Overlap<V>(f: Factor<V>, g: Factor<V>): nat {
    |Ids(f.scope) * Ids(g.scope)|
  }

  /** Two factors overlap exactly when some variable of one has the id of a
      variable of the other. */
  lemma OverlapPositive<V>(f: Factor<V>, g: Factor<V>)
    ensures Overlap(f, g) > 0 <==> exists v, w :: v in f.scope && w in g.scope && v.id == w.id
  {
    var common := Ids(f.scope) * Ids(g.scope);
    if Overlap(f, g) > 0 {
      var id :| id in common;
      var v :| v in f.scope && v.id == id;
      var w :| w in g.scope && w.id == id;
    }
    if exists v, w :: v in f.scope && w in g.scope && v.id == w.id {
      var v, w :| v in f.scope && w in g.scope && v.id == w.id;
      assert v.id in common;
    }
  }

  // getRoot

  /** The position `getRoot` settles on after looking at `fs[..j]`, having
      kept position `best` so far: a later factor replaces the kept one only
      when its scope is strictly smaller. */
  function RootFrom<V>(fs: seq<Factor<V>>, j: nat, best: nat): (i: nat)
    requires best < |fs| && j <= |fs| && best < j
    requires forall k :: 0 <= k < j ==> |fs[best].scope| <= |fs[k].scope|
    requires forall k :: 0 <= k < best ==> |fs[best].scope| < |fs[k].scope|
    ensures i < |fs|
    ensures forall k :: 0 <= k < |fs| ==> |fs[i].scope| <= |fs[k].scope|
    ensures forall k :: 0 <= k < i ==> |fs[i].scope| < |fs[k].scope|
    decreases |fs| - j
  {
    if j == |fs| then best
    else if |fs[j].scope| < |fs[best].scope| then RootFrom(fs, j + 1, j)
    else RootFrom(fs, j + 1, best)
  }

  /** `getRoot`: the earliest factor of smallest scope (every factor before
      it is strictly larger), and the list without it. An empty list has no
      root: the source indexes `fs[0]` and panics. */
  function GetRoot<V>(fs: seq<Factor<V>>): (r: Option<(Factor<V>, seq<Factor<V>>)>)
    ensures r.None? <==> |fs| == 0
    ensures r.Some? ==> exists i :: 0 <= i < |fs| && r.value.0 == fs[i] && r.value.1 == fs[..i] + fs[i + 1..] &&
                                    forall k :: 0 <= k < i ==> |fs[i].scope| < |fs[k].scope|
    ensures r.Some? ==> forall k :: 0 <= k < |fs| ==> |r.value.0.scope| <= |fs[k].scope|
  {
    if |fs| == 0 then None
    else
      var i := RootFrom(fs, 1, 0);
      Some((fs[i], fs[..i] + fs[i + 1..]))
  }

  /** Removing the root keeps every other factor: root and rest together
      are the input, counted with multiplicity. */
  lemma RootPartitions<V>(fs: seq<Factor<V>>)
    requires |fs| > 0
    ensures multiset{GetRoot(fs).value.0} + multiset(GetRoot(fs).value.1) == multiset(fs)
  {
    var i :| 0 <= i < |fs| && GetRoot(fs).value.0 == fs[i] && GetRoot(fs).value.1 == fs[..i] + fs[i + 1..];
    assert fs == fs[..i] + [fs[i]] + fs[i + 1..];
  }

  // getMaxIntersec

  /** `s` is an order-preserving merge of `a` and `b`: each element of `s`
      comes from the front of one of them, in turn. */
  ghost predicate Interleaving<T>(s: seq<T>, a: seq<T>, b: seq<T>)
    decreases |s|
  {
    if |s| == 0 then a == [] && b == []
    else
      (|a| > 0 && a[0] == s[0] && Interleaving(s[1..], a[1..], b)) ||
      (|b| > 0 && b[0] == s[0] && Interleaving(s[1..], a, b[1..]))
  }

  /** A merge loses and invents nothing. */
  lemma {:induction false} InterleavingMultiset<T>(s: seq<T>, a: seq<T>, b: seq<T>)
    requires Interleaving(s, a, b)
    ensures multiset(s) == multiset(a) + multiset(b)
    ensures |s| == |a| + |b|
    decreases |s|
  {
    if |s| > 0 {
      assert s == [s[0]] + s[1..];
      if |a| > 0 && a[0] == s[0] && Interleaving(s[1..], a[1..], b) {
        InterleavingMultiset(s[1..], a[1..], b);
        assert a == [a[0]] + a[1..];
      } else {
        InterleavingMultiset(s[1..], a, b[1..]);
        assert b == [b[0]] + b[1..];
      }
    }
  }

  /** The largest of a list of counts, starting from 0, scanning from the
      front as the first loop of `getMaxIntersec` does. */
  function MaxOf(xs: seq<nat>): (m: nat)
    ensures forall k :: 0 <= k < |xs| ==> xs[k] <= m
    ensures m > 0 ==> exists k :: 0 <= k < |xs| && xs[k] == m
    decreases |xs|
  {
    if |xs| == 0 then 0
    else
      var init := xs[..|xs| - 1];
      var m := MaxOf(init);
      assert forall k :: 0 <= k < |init| ==> init[k] == xs[k];
      if xs[|xs| - 1] > m then xs[|xs| - 1] else m
  }

  /** The largest overlap of `f` with a pool factor, or 0. */
  function MaxOverlap<V>(f: Factor<V>, fs: seq<Factor<V>>): (m: nat)
    ensures forall k :: 0 <= k < |fs| ==> Overlap(f, fs[k]) <= m
    ensures m > 0 ==> exists k :: 0 <= k < |fs| && Overlap(f, fs[k]) == m
  {
    var xs := seq(|fs|, k requires 0 <= k < |fs| => Overlap(f, fs[k]));
    var m := MaxOf(xs);
    assert forall k :: 0 <= k < |fs| ==> xs[k] == Overlap(f, fs[k]);
    assert m > 0 ==> exists k :: 0 <= k < |fs| && Overlap(f, fs[k]) == m by {
      if m > 0 {
        var k :| 0 <= k < |xs| && xs[k] == m;
        assert Overlap(f, fs[k]) == m;
      }
    }
    m
  }

  /** The second loop of `getMaxIntersec`: factors whose overlap with `f` is
      `m` go to the first list, the others to the second, in pool order. */
  function SplitBy<V>(f: Factor<V>, fs: seq<Factor<V>>, m: nat): (r: (seq<Factor<V>>, seq<Factor<V>>))
    ensures Interleaving(fs, r.0, r.1)
    ensures forall k :: 0 <= k < |r.0| ==> Overlap(f, r.0[k]) == m
    ensures forall k :: 0 <= k < |r.1| ==> Overlap(f, r.1[k]) != m
    ensures (exists k :: 0 <= k < |fs| && Overlap(f, fs[k]) == m) ==> |r.0| > 0
    decreases |fs|
  {
    if |fs| == 0 then ([], [])
    else
      var rest := SplitBy(f, fs[1..], m);
      assert forall k :: 1 <= k < |fs| ==> fs[k] == fs[1..][k - 1];
      if Overlap(f, fs[0]) == m then
        assert ([fs[0]] + rest.0)[1..] == rest.0;
        ([fs[0]] + rest.0, rest.1)
      else
        assert ([fs[0]] + rest.1)[1..] == rest.1;
        (rest.0, [fs[0]] + rest.1)
  }

  /** `getMaxIntersec`: the pool factors `f` adopts as children, and the
      pool left over. When nothing in the pool shares a variable with `f`
      there are no children and the pool is returned as it was; otherwise
      the children are every factor of the largest overlap, and the pool is
      split between children and leftovers in its own order. */
  function GetMaxIntersec<V>(f: Factor<V>, fs: seq<Factor<V>>): (r: (seq<Factor<V>>, seq<Factor<V>>))
    ensures r.0 == [] <==> forall k :: 0 <= k < |fs| ==> Overlap(f, fs[k]) == 0
    ensures r.0 == [] ==> r.1 == fs
    ensures Interleaving(fs, r.0, r.1)
    ensures r.0 != [] ==> Overlap(f, r.0[0]) > 0
    ensures r.0 != [] ==> forall k :: 0 <= k < |r.0| ==> Overlap(f, r.0[k]) == Overlap(f, r.0[0])
    ensures r.0 != [] ==> forall k :: 0 <= k < |r.1| ==> Overlap(f, r.1[k]) < Overlap(f, r.0[0])
  {
    var m := MaxOverlap(f, fs);
    if m == 0 then
      assert Interleaving(fs, [], fs) by { NoneTaken(fs); }
      ([], fs)
    else
      var r := SplitBy(f, fs, m);
      assert forall k :: 0 <= k < |r.1| ==> Overlap(f, r.1[k]) < m by {
        InterleavingMembers(fs, r.0, r.1);
        forall k | 0 <= k < |r.1| ensures Overlap(f, r.1[k]) < m {
          var j :| 0 <= j < |fs| && fs[j] == r.1[k];
        }
      }
      r
  }

  /** A list is its own merge with the empty list. */
  lemma {:induction false} NoneTaken<T>(s: seq<T>)
    ensures Interleaving(s, [], s)
    decreases |s|
  {
    if |s| > 0 {
      NoneTaken(s[1..]);
    }
  }

  /** Every element of either side of a merge occurs in the merged list. */
  lemma InterleavingMembers<T>(s: seq<T>, a: seq<T>, b: seq<T>)
    requires Interleaving(s, a, b)
    ensures forall k :: 0 <= k < |a| ==> exists j :: 0 <= j < |s| && s[j] == a[k]
    ensures forall k :: 0 <= k < |b| ==> exists j :: 0 <= j < |s| && s[j] == b[k]
  {
    InterleavingMultiset(s, a, b);
    forall k | 0 <= k < |a| ensures exists j :: 0 <= j < |s| && s[j] == a[k] {
      assert a[k] in multiset(a);
      assert a[k] in multiset(s);
    }
    forall k | 0 <= k < |b| ensures exists j :: 0 <= j < |s| && s[j] == b[k] {
      assert b[k] in multiset(b);
      assert b[k] in multiset(s);
    }
  }

  // buildCTree

  /** A clique tree as `buildCTree` assembles it: the nodes in the order
      they are added to the tree, and for each node the position of its
      parent node, -1 for the root. */
  datatype CTree<V> = CTree(nodes: seq<Factor<V>>, parent: seq<int>)

  /** Every node but the root hangs below an earlier node that shares at
      least one variable with it. */
  predicate Linked<V>(t: CTree<V>) {
    && |t.nodes| == |t.parent| >= 1
    && t.parent[0] == -1
    && forall k :: 1 <= k < |t.nodes| ==>
         0 <= t.parent[k] < k && Overlap(t.nodes[t.parent[k]], t.nodes[k]) > 0
  }

  /** Nodes are added in breadth-first order: the children of one node are
      added together, after the children of every earlier node. */
  predicate BreadthFirst<V>(t: CTree<V>) {
    forall k, l :: 1 <= k < l < |t.parent| ==> t.parent[k] <= t.parent[l]
  }

  /** The shape of the tree while the walk runs: nodes before `head` have
      been dequeued, and every node but the root hangs below one of them. */
  predicate Growing<V>(nodes: seq<Factor<V>>, parent: seq<int>, head: nat) {
    && head <= |nodes| == |parent|
    && |nodes| >= 1
    && parent[0] == -1
    && (forall k :: 1 <= k < |nodes| ==>
          0 <= parent[k] < head && parent[k] < k && Overlap(nodes[parent[k]], nodes[k]) > 0)
    && forall k, l :: 1 <= k < l < |parent| ==> parent[k] <= parent[l]
  }

  /** Dequeuing the node at `head` and queuing the factors it adopts, each
      sharing a variable with it, keeps the shape. */
  lemma AdoptKeepsShape<V>(nodes: seq<Factor<V>>, parent: seq<int>, head: nat, adopted: seq<Factor<V>>)
    requires Growing(nodes, parent, head) && head < |nodes|
    requires forall k :: 0 <= k < |adopted| ==> Overlap(nodes[head], adopted[k]) > 0
    ensures Growing(nodes + adopted, parent + seq(|adopted|, _ => head as int), head + 1)
  {
    var nodes', parent' := nodes + adopted, parent + seq(|adopted|, _ => head as int);
    forall k | 1 <= k < |nodes'|
      ensures 0 <= parent'[k] < head + 1 && parent'[k] < k && Overlap(nodes'[parent'[k]], nodes'[k]) > 0
    {
      if k >= |nodes| {
        assert parent'[k] == head && nodes'[head] == nodes[head] && nodes'[k] == adopted[k - |nodes|];
      } else {
        assert parent'[k] == parent[k] && nodes'[k] == nodes[k] && nodes'[parent[k]] == nodes[parent[k]];
      }
    }
  }

  /** Ends the walk: a finished shape is a linked tree in breadth-first order. */
  lemma GrownIsTree<V>(nodes: seq<Factor<V>>, parent: seq<int>, head: nat)
    requires Growing(nodes, parent, head)
    ensures Linked(CTree(nodes, parent)) && BreadthFirst(CTree(nodes, parent))
  {
  }

  /** `buildCTree`. The queue of the source is the stretch of nodes from
      position `head` on: a node is queued when it is created and added to
      the tree when it is dequeued, so the tree holds the nodes in creation
      order. Besides the tree, the method returns the factors no node
      adopted; the source drops these without a report. An empty factor list
      has no tree (the source panics in `getRoot`). */
  method BuildTree<V(==)>(fs: seq<Factor<V>>) returns (t: Option<CTree<V>>, dropped: seq<Factor<V>>)
    ensures t.None? <==> |fs| == 0
    ensures t.None? ==> dropped == []
    ensures t.Some? ==> Linked(t.value) && BreadthFirst(t.value)
    ensures t.Some? ==> t.value.nodes[0] == GetRoot(fs).value.0
    ensures t.Some? ==> multiset(t.value.nodes) + multiset(dropped) == multiset(fs)
  {
    var r := GetRoot(fs);
    if r.None? {
      return None, [];
    }
    var root := r.value.0;
    RootPartitions(fs);
    var nodes := [root];
    var parent := [-1];
    var pool := r.value.1;
    var head := 0;
    while head < |nodes|
      invariant Growing(nodes, parent, head)
      invariant nodes[0] == root
      invariant |nodes| + |pool| == |fs|
      invariant multiset(nodes) + multiset(pool) == multiset(fs)
      decreases |fs| - head
    {
      var adopted := GetMaxIntersec(nodes[head], pool);
      InterleavingMultiset(pool, adopted.0, adopted.1);
      AdoptKeepsShape(nodes, parent, head, adopted.0);
      nodes := nodes + adopted.0;
      parent := parent + seq(|adopted.0|, _ => head);
      pool := adopted.1;
      head := head + 1;
    }
    GrownIsTree(nodes, parent, head);
    return Some(CTree(nodes, parent)), pool;
  }
}
