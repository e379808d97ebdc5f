/**
 * The value that a graph of `HuffmanTreeNode` objects denotes, and the greedy
 * merge process of `HuffmanTree.createTree` stated on such values: a queue of
 * trees from which the two of least frequency are taken and joined under a new
 * internal node until one tree is left.
 */
module CodeTree {
  import opened Wrappers
  import opened Frequencies

  /** A leaf carries a symbol, its frequency and, once assigned, its code;
      an internal node carries a frequency and its left and right child. */
  datatype Tree<E> =
    | Leaf(sym: E, freq: int, code: Option<string>)
    | Node(freq: int, left: Tree<E>, right: Tree<E>)

  /** Number of nodes, leaves and internal ones. */
  function NodeCount<E>(t: Tree<E>): nat
  {
    match t
    case Leaf(_, _, _) => 1
    case Node(_, l, r) => 1 + NodeCount(l) + NodeCount(r)
  }

  /** The leaves, left to right. */
  function Leaves<E>(t: Tree<E>): (r: seq<Tree<E>>)
    ensures forall k :: 0 <= k < |r| ==> r[k].Leaf?
  {
    match t
    case Leaf(_, _, _) => [t]
    case Node(_, l, r) => Leaves(l) + Leaves(r)
  }

  /** The symbols at the leaves. */
  function Syms<E(==)>(t: Tree<E>): set<E>
  {
    match t
    case Leaf(s, _, _) => {s}
    case Node(_, l, r) => Syms(l) + Syms(r)
  }

  /** No symbol labels two leaves. */
  predicate UniqueSyms<E(==)>(t: Tree<E>)
  {
    match t
    case Leaf(_, _, _) => true
    case Node(_, l, r) => UniqueSyms(l) && UniqueSyms(r) && Syms(l) !! Syms(r)
  }

  /** Every internal node's frequency is the sum of its children's. */
  predicate SumsHold<E>(t: Tree<E>)
  {
    match t
    case Leaf(_, _, _) => true
    case Node(f, l, r) => f == l.freq + r.freq && SumsHold(l) && SumsHold(r)
  }

  /** No leaf has a code yet. */
  predicate Uncoded<E>(t: Tree<E>)
  {
    match t
    case Leaf(_, _, c) => c.None?
    case Node(_, l, r) => Uncoded(l) && Uncoded(r)
  }

  /** Every leaf is an entry of the frequency table `m`, with the same frequency. */
  predicate FreqsFrom<E(==)>(t: Tree<E>, m: map<E, int>)
  {
    match t
    case Leaf(s, f, _) => s in m && f == m[s]
    case Node(_, l, r) => FreqsFrom(l, m) && FreqsFrom(r, m)
  }

  /** What every tree in the construction queue satisfies. */
  predicate WellBuilt<E(==)>(t: Tree<E>, m: map<E, int>)
  {
    SumsHold(t) && Uncoded(t) && UniqueSyms(t) && FreqsFrom(t, m)
  }

  /** A leaf's symbol is one of the tree's symbols. */
  lemma {:induction false} LeafSymInSyms<E>(t: Tree<E>, k: nat)
    requires k < |Leaves(t)|
    ensures Leaves(t)[k].Leaf? && Leaves(t)[k].sym in Syms(t)
  {
    match t
    case Leaf(_, _, _) =>
    case Node(_, l, r) =>
      if k < |Leaves(l)| {
        LeafSymInSyms(l, k);
      } else {
        LeafSymInSyms(r, k - |Leaves(l)|);
      }
  }

  /** With unique symbols, distinct leaf positions carry distinct symbols. */
  lemma {:induction false} UniqueSymsDistinct<E>(t: Tree<E>, a: nat, b: nat)
    requires UniqueSyms(t) && a < b < |Leaves(t)|
    ensures Leaves(t)[a].sym != Leaves(t)[b].sym
  {
    match t
    case Leaf(_, _, _) =>
    case Node(_, l, r) =>
      var n := |Leaves(l)|;
      if b < n {
        UniqueSymsDistinct(l, a, b);
      } else if a >= n {
        UniqueSymsDistinct(r, a - n, b - n);
      } else {
        LeafSymInSyms(l, a);
        LeafSymInSyms(r, b - n);
      }
  }

  /** A tree whose internal nodes all have two children has one node fewer than
      twice its leaves. */
  lemma {:induction false} NodeCountOfLeaves<E>(t: Tree<E>)
    ensures NodeCount(t) == 2 * |Leaves(t)| - 1
  {
    match t
    case Leaf(_, _, _) =>
    case Node(_, l, r) =>
      NodeCountOfLeaves(l);
      NodeCountOfLeaves(r);
  }

  /** With unique symbols there is one leaf per symbol. */
  lemma {:induction false} LeafCountIsSymCount<E>(t: Tree<E>)
    requires UniqueSyms(t)
    ensures |Leaves(t)| == |Syms(t)|
  {
    match t
    case Leaf(_, _, _) =>
    case Node(_, l, r) =>
      LeafCountIsSymCount(l);
      LeafCountIsSymCount(r);
      assert Syms(l) * Syms(r) == {};
  }

  // ---------------------------------------------------------------------------
  // The construction queue, as a sequence of trees.

  /** Sum of the root frequencies of a queue. */
  function ForestFreq<E>(q: seq<Tree<E>>): int
  {
    if q == [] then 0 else q[0].freq + ForestFreq(q[1..])
  }

  /** Total number of nodes in a queue. */
  function ForestSize<E>(q: seq<Tree<E>>): nat
  {
    if q == [] then 0 else NodeCount(q[0]) + ForestSize(q[1..])
  }

  /** All symbols in a queue. */
  function ForestSyms<E(==)>(q: seq<Tree<E>>): set<E>
  {
    if q == [] then {} else Syms(q[0]) + ForestSyms(q[1..])
  }

  /** All leaves in a queue, tree after tree. */
  function ForestLeaves<E>(q: seq<Tree<E>>): seq<Tree<E>>
  {
    if q == [] then [] else Leaves(q[0]) + ForestLeaves(q[1..])
  }

  /** The queue measures add up over a split of the queue. */
  lemma {:induction false} ForestConcat<E>(a: seq<Tree<E>>, b: seq<Tree<E>>)
    ensures ForestFreq(a + b) == ForestFreq(a) + ForestFreq(b)
    ensures ForestSize(a + b) == ForestSize(a) + ForestSize(b)
    ensures ForestSyms(a + b) == ForestSyms(a) + ForestSyms(b)
    ensures ForestLeaves(a + b) == ForestLeaves(a) + ForestLeaves(b)
  {
    if a == [] {
      assert a + b == b;
    } else {
      assert (a + b)[0] == a[0];
      assert (a + b)[1..] == a[1..] + b;
      ForestConcat(a[1..], b);
    }
  }

  /** `s` with its element at index `i` taken out. */
  function Without<T>(s: seq<T>, i: nat): (r: seq<T>)
    requires i < |s|
    ensures |r| == |s| - 1
    ensures forall k :: 0 <= k < |r| ==> r[k] == s[if k < i then k else k + 1]
  {
    s[..i] + s[i + 1..]
  }

  /** Taking one tree out of the queue takes its share out of every measure. */
  lemma WithoutMeasures<E>(q: seq<Tree<E>>, i: nat)
    requires i < |q|
    ensures ForestFreq(q) == q[i].freq + ForestFreq(Without(q, i))
    ensures ForestSize(q) == NodeCount(q[i]) + ForestSize(Without(q, i))
    ensures ForestSyms(q) == Syms(q[i]) + ForestSyms(Without(q, i))
  {
    var head, tail := q[..i], q[i + 1..];
    var mid := q[i..];
    assert q == head + mid;
    assert mid[0] == q[i] && mid[1..] == tail;
    assert Without(q, i) == head + tail;
    ForestConcat(head, mid);
    ForestConcat(head, tail);
  }

  /** The step of the merge loop: the trees at `i` of `q`, then at `j` of what is
      left, are joined under a new internal node that goes to the back. */
  function Merge<E>(q: seq<Tree<E>>, i: nat, j: nat): (r: seq<Tree<E>>)
    requires i < |q| && j < |q| - 1
    ensures |r| == |q| - 1
    ensures r[..|r| - 1] == Without(Without(q, i), j)
    ensures r[|r| - 1].Node? && r[|r| - 1].left == q[i] && r[|r| - 1].right == Without(q, i)[j]
    ensures r[|r| - 1].freq == q[i].freq + Without(q, i)[j].freq
  {
    var rest := Without(q, i);
    var a, b := q[i], rest[j];
    Without(rest, j) + [Node(a.freq + b.freq, a, b)]
  }

  /** `i` is a tree of least frequency in `q`, and `j` one of least frequency
      among the others: what two polls of the priority queue return. */
  ghost predicate GreedyChoice<E>(q: seq<Tree<E>>, i: nat, j: nat)
  {
    i < |q| && j < |q| - 1 &&
    (forall k :: 0 <= k < |q| ==> q[i].freq <= q[k].freq) &&
    (forall k :: 0 <= k < |q| - 1 ==> Without(q, i)[j].freq <= Without(q, i)[k].freq)
  }

  /** `q'` follows `q` by one greedy merge. */
  ghost predicate GreedyStep<E>(q: seq<Tree<E>>, q': seq<Tree<E>>)
  {
    exists i: nat, j: nat :: GreedyChoice(q, i, j) && q' == Merge(q, i, j)
  }

  /** The queue as first filled: one uncoded leaf per entry of `m`. */
  ghost predicate LeafForest<E>(q: seq<Tree<E>>, m: map<E, int>)
  {
    |q| == |m| &&
    (forall k :: 0 <= k < |q| ==>
      q[k].Leaf? && q[k].sym in m && q[k].freq == m[q[k].sym] && q[k].code.None?) &&
    (forall a, b :: 0 <= a < b < |q| ==> q[a].sym != q[b].sym)
  }

  /** `trace` records a whole run of the construction for `m` that ends with `t`. */
  ghost predicate GreedyRun<E>(trace: seq<seq<Tree<E>>>, m: map<E, int>, t: Tree<E>)
  {
    |trace| > 0 && LeafForest(trace[0], m) && trace[|trace| - 1] == [t] &&
    forall k :: 0 <= k < |trace| - 1 ==> GreedyStep(trace[k], trace[k + 1])
  }

  /** `t` is a Huffman tree for `m`: the construction can end with it. */
  ghost predicate IsHuffmanTree<E(!new)>(t: Tree<E>, m: map<E, int>)
  {
    exists trace :: GreedyRun(trace, m, t)
  }

  /** What holds of the queue at every point of the construction for `m`. */
  ghost predicate ForestOf<E>(q: seq<Tree<E>>, m: map<E, int>)
  {
    (forall k :: 0 <= k < |q| ==> WellBuilt(q[k], m)) &&
    (forall a, b :: 0 <= a < b < |q| ==> Syms(q[a]) !! Syms(q[b])) &&
    ForestSyms(q) == m.Keys && ForestFreq(q) == MapSum(m) &&
    ForestSize(q) + |q| == 2 * |m|
  }

  /** The queue as first filled satisfies the construction invariant. */
  lemma {:induction false} LeafForestIsForest<E>(q: seq<Tree<E>>, m: map<E, int>)
    requires LeafForest(q, m)
    ensures ForestOf(q, m)
    decreases |q|
  {
    if q == [] {
      assert m.Keys == {};
      assert m == map[];
    } else {
      var s := q[0].sym;
      var m' := m - {s};
      var q' := q[1..];
      CardRemove(m, s);
      forall k | 0 <= k < |q'|
        ensures q'[k].sym in m' && q'[k].freq == m'[q'[k].sym]
      {
        assert q'[k] == q[k + 1];
      }
      assert LeafForest(q', m');
      LeafForestIsForest(q', m');
      MapSumRemove(m, s);
      assert m'.Keys == m.Keys - {s};
      forall a, b | 0 <= a < b < |q| ensures Syms(q[a]) !! Syms(q[b]) {
        assert Syms(q[a]) == {q[a].sym} && Syms(q[b]) == {q[b].sym};
      }
    }
  }

  /** Where the `k`-th untouched tree of `Merge(q, i, j)` sits in `q`. */
  function MergedIndex(i: nat, j: nat, k: nat): nat
  {
    if k < j then (if k < i then k else k + 1)
    else (if k + 1 < i then k + 1 else k + 2)
  }

  /** The trees that a merge leaves alone keep their order, and are neither of
      the two that were joined. */
  lemma MergeKeeps<E>(q: seq<Tree<E>>, i: nat, j: nat)
    requires i < |q| && j < |q| - 1
    ensures Without(q, i)[j] == q[if j < i then j else j + 1]
    ensures forall k :: 0 <= k < |q| - 2 ==>
      MergedIndex(i, j, k) < |q| && Merge(q, i, j)[k] == q[MergedIndex(i, j, k)]
    ensures forall k :: 0 <= k < |q| - 2 ==>
      MergedIndex(i, j, k) != i && MergedIndex(i, j, k) != (if j < i then j else j + 1)
    ensures forall x, y :: 0 <= x < y < |q| - 2 ==> MergedIndex(i, j, x) < MergedIndex(i, j, y)
  {
    var rest, r := Without(q, i), Merge(q, i, j);
    forall k | 0 <= k < |q| - 2
      ensures MergedIndex(i, j, k) < |q| && r[k] == q[MergedIndex(i, j, k)]
    {
      assert r[k] == r[..|r| - 1][k] == Without(rest, j)[k];
      assert Without(rest, j)[k] == rest[if k < j then k else k + 1];
    }
  }

  /** A merge keeps the symbol sets of the queue pairwise disjoint. */
  lemma MergeDisjoint<E>(q: seq<Tree<E>>, i: nat, j: nat)
    requires i < |q| && j < |q| - 1
    requires forall a, b :: 0 <= a < b < |q| ==> Syms(q[a]) !! Syms(q[b])
    ensures forall a, b :: 0 <= a < b < |q| - 1 ==> Syms(Merge(q, i, j)[a]) !! Syms(Merge(q, i, j)[b])
  {
    var r := Merge(q, i, j);
    var j' := if j < i then j else j + 1;
    MergeKeeps(q, i, j);
    assert forall a, b :: 0 <= a < |q| && 0 <= b < |q| && a != b ==> Syms(q[a]) !! Syms(q[b]) by {
      forall a, b | 0 <= a < |q| && 0 <= b < |q| && a != b ensures Syms(q[a]) !! Syms(q[b]) {
        if a < b { } else { assert Syms(q[b]) !! Syms(q[a]); }
      }
    }
    assert r[|q| - 2] == Node(q[i].freq + q[j'].freq, q[i], q[j']);
  }

  /** One greedy merge keeps the construction invariant. */
  lemma MergePreserves<E>(q: seq<Tree<E>>, i: nat, j: nat, m: map<E, int>)
    requires ForestOf(q, m) && i < |q| && j < |q| - 1
    ensures ForestOf(Merge(q, i, j), m)
  {
    var rest := Without(q, i);
    var a, b := q[i], rest[j];
    var rest2 := Without(rest, j);
    var n := Node(a.freq + b.freq, a, b);
    var r := Merge(q, i, j);
    assert r == rest2 + [n];
    MergeKeeps(q, i, j);
    var j' := if j < i then j else j + 1;
    assert Syms(a) !! Syms(b) by {
      if i < j' { assert Syms(q[i]) !! Syms(q[j']); } else { assert Syms(q[j']) !! Syms(q[i]); }
    }
    assert WellBuilt(n, m);
    assert forall k :: 0 <= k < |r| ==> WellBuilt(r[k], m) by {
      forall k | 0 <= k < |r| ensures WellBuilt(r[k], m) {
        if k < |rest2| { assert r[k] == q[MergedIndex(i, j, k)]; }
      }
    }
    MergeDisjoint(q, i, j);
    MergeMeasures(q, i, j);
  }

  /** A merge keeps the total frequency and the symbols of the queue and adds
      one node to it. */
  lemma MergeMeasures<E>(q: seq<Tree<E>>, i: nat, j: nat)
    requires i < |q| && j < |q| - 1
    ensures ForestFreq(Merge(q, i, j)) == ForestFreq(q)
    ensures ForestSize(Merge(q, i, j)) == ForestSize(q) + 1
    ensures ForestSyms(Merge(q, i, j)) == ForestSyms(q)
  {
    MergeShape(q, i, j);
    JoinMeasures(q, i, j);
  }

  /** The measures of the queue a merge leaves, written out. */
  lemma JoinMeasures<E>(q: seq<Tree<E>>, i: nat, j: nat)
    requires i < |q| && j < |q| - 1
    ensures var r := Without(Without(q, i), j) + [Node(q[i].freq + Without(q, i)[j].freq, q[i], Without(q, i)[j])];
      ForestFreq(r) == ForestFreq(q) && ForestSize(r) == ForestSize(q) + 1 && ForestSyms(r) == ForestSyms(q)
  {
    var rest := Without(q, i);
    var rest2 := Without(rest, j);
    var a, b := q[i], rest[j];
    var n := Node(a.freq + b.freq, a, b);
    assert ForestFreq(q) == ForestFreq(rest2) + a.freq + b.freq &&
           ForestSize(q) == ForestSize(rest2) + NodeCount(a) + NodeCount(b) &&
           ForestSyms(q) == ForestSyms(rest2) + Syms(a) + Syms(b) by {
      WithoutMeasures(q, i);
      WithoutMeasures(rest, j);
    }
    ForestConcat(rest2, [n]);
    Singleton(n);
  }

  /** What a merge leaves: the rest of the queue, then the new node. */
  lemma MergeShape<E>(q: seq<Tree<E>>, i: nat, j: nat)
    requires i < |q| && j < |q| - 1
    ensures Merge(q, i, j) ==
      Without(Without(q, i), j) + [Node(q[i].freq + Without(q, i)[j].freq, q[i], Without(q, i)[j])]
  {
  }

  /** The measures of a queue of one tree are those of the tree. */
  lemma Singleton<E>(t: Tree<E>)
    ensures ForestFreq([t]) == t.freq && ForestSize([t]) == NodeCount(t)
    ensures ForestSyms([t]) == Syms(t) && ForestLeaves([t]) == Leaves(t)
  {
    assert [t][1..] == [];
  }

  /** Every queue along a run satisfies the construction invariant. */
  lemma {:induction false} GreedyRunForest<E>(trace: seq<seq<Tree<E>>>, m: map<E, int>, t: Tree<E>, n: nat)
    requires GreedyRun(trace, m, t) && n < |trace|
    ensures ForestOf(trace[n], m)
  {
    if n == 0 {
      LeafForestIsForest(trace[0], m);
    } else {
      GreedyRunForest(trace, m, t, n - 1);
      assert GreedyStep(trace[n - 1], trace[n]);
      var i: nat, j: nat :| GreedyChoice(trace[n - 1], i, j) && trace[n] == Merge(trace[n - 1], i, j);
      MergePreserves(trace[n - 1], i, j, m);
    }
  }

  /** A Huffman tree for `m` has one leaf per entry of `m` with that entry's
      frequency, internal frequencies that are the sums of their children's,
      a root frequency that is the total of `m`, and 2|m| - 1 nodes. */
  lemma HuffmanTreeShape<E(!new)>(t: Tree<E>, m: map<E, int>)
    requires IsHuffmanTree(t, m)
    ensures WellBuilt(t, m) && Syms(t) == m.Keys
    ensures |Leaves(t)| == |m| && NodeCount(t) == 2 * |m| - 1
    ensures t.freq == MapSum(m)
  {
    var trace :| GreedyRun(trace, m, t);
    GreedyRunForest(trace, m, t, |trace| - 1);
    var last := trace[|trace| - 1];
    assert last == [t] && last[0] == t && last[1..] == [];
    assert WellBuilt(last[0], m);
    assert ForestSyms(last) == Syms(t) + ForestSyms([]);
    assert ForestFreq(last) == t.freq + ForestFreq(last[1..]);
    assert ForestSize(last) == NodeCount(t) + ForestSize(last[1..]);
    assert |m| == |m.Keys|;
    LeafCountIsSymCount(t);
  }
}
