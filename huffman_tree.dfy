/**
 * `HuffmanTree`: builds the tree of `HuffmanTreeNode` objects from a frequency
 * table, writes the codes into its leaves, looks values up and measures it.
 * The priority queue of the source is a sequence of nodes from which `Poll`
 * takes some node of least frequency.
 */
module Huffman {
  import opened Wrappers
  import opened Frequencies
  import opened CodeTree
  import opened Codes
  import opened Lookup
  import opened Statistics
  import opened TreeNode

  /** Takes some node of least frequency out of `nodes`: which one among equal
      frequencies is left open. */
  method Poll<E>(nodes: seq<HuffmanTreeNode<E>>) returns (i: nat, rest: seq<HuffmanTreeNode<E>>)
    requires |nodes| > 0
    ensures i < |nodes| && rest == Without(nodes, i)
    ensures forall k :: 0 <= k < |nodes| ==> nodes[i].frequency <= nodes[k].frequency
  {
    LeastFrequencyExists(nodes);
    i :| i < |nodes| && forall k :: 0 <= k < |nodes| ==> nodes[i].frequency <= nodes[k].frequency;
    rest := nodes[..i] + nodes[i + 1..];
  }

  /** The queue `nodes` denotes the queue of trees `q`: each node is the valid
      root of its tree, in `S` with all its subtree, and no two share a node. */
  ghost predicate Denotes<E>(nodes: seq<HuffmanTreeNode<E>>, q: seq<Tree<E>>, S: set<object>)
    reads S
  {
    |nodes| == |q| &&
    (forall k :: 0 <= k < |nodes| ==>
      nodes[k] in S && nodes[k].Repr <= S && nodes[k].Valid() &&
      nodes[k].Abs() == q[k] && nodes[k].frequency == q[k].freq) &&
    (forall a, b :: 0 <= a < b < |nodes| ==> nodes[a].Repr !! nodes[b].Repr)
  }

  /** Taking a node out of the queue takes its tree out, and what is left
      shares no node with it. */
  lemma DenotesWithout<E>(nodes: seq<HuffmanTreeNode<E>>, q: seq<Tree<E>>, S: set<object>, i: nat)
    requires Denotes(nodes, q, S) && i < |nodes|
    ensures Denotes(Without(nodes, i), Without(q, i), S)
    ensures forall k :: 0 <= k < |nodes| - 1 ==> nodes[i].Repr !! Without(nodes, i)[k].Repr
  {
    forall a, b | 0 <= a < |nodes| && 0 <= b < |nodes| && a != b ensures nodes[a].Repr !! nodes[b].Repr {
      if a < b { } else { }
    }
  }

  /** A valid node that shares nothing with the queue can join it at the back. */
  lemma DenotesAppend<E>(nodes: seq<HuffmanTreeNode<E>>, q: seq<Tree<E>>, S: set<object>, node: HuffmanTreeNode<E>, S': set<object>)
    requires Denotes(nodes, q, S) && S <= S'
    requires node in S' && node.Repr <= S' && node.Valid()
    requires forall k :: 0 <= k < |nodes| ==> node.Repr !! nodes[k].Repr
    ensures Denotes(nodes + [node], q + [node.Abs()], S')
  {
    FrequencyOfAbs(node);
  }

  /** `trace` is the start of a greedy run for `m` that has reached `q`. */
  ghost predicate PartialRun<E>(trace: seq<seq<Tree<E>>>, m: map<E, int>, q: seq<Tree<E>>)
  {
    |trace| > 0 && LeafForest(trace[0], m) && trace[|trace| - 1] == q &&
    forall k :: 0 <= k < |trace| - 1 ==> GreedyStep(trace[k], trace[k + 1])
  }

  /** A greedy merge extends a partial run. */
  lemma RunExtend<E>(trace: seq<seq<Tree<E>>>, m: map<E, int>, q: seq<Tree<E>>, i: nat, j: nat)
    requires PartialRun(trace, m, q) && GreedyChoice(q, i, j)
    ensures PartialRun(trace + [Merge(q, i, j)], m, Merge(q, i, j))
  {
    assert GreedyStep(q, Merge(q, i, j));
    var t := trace + [Merge(q, i, j)];
    forall k | 0 <= k < |t| - 1 ensures GreedyStep(t[k], t[k + 1]) {
      if k < |trace| - 1 {
        assert t[k] == trace[k] && t[k + 1] == trace[k + 1];
      }
    }
  }

  /** Two polls of least frequency are a greedy choice on the queue of trees. */
  lemma ChoiceFromPoll<E>(nodes: seq<HuffmanTreeNode<E>>, q: seq<Tree<E>>, S: set<object>, i: nat, j: nat)
    requires Denotes(nodes, q, S) && i < |nodes| && j < |nodes| - 1
    requires forall k :: 0 <= k < |nodes| ==> nodes[i].frequency <= nodes[k].frequency
    requires forall k :: 0 <= k < |nodes| - 1 ==> Without(nodes, i)[j].frequency <= Without(nodes, i)[k].frequency
    ensures GreedyChoice(q, i, j)
  {
    DenotesWithout(nodes, q, S, i);
  }

  /** Joining the trees of two queued nodes under a new node `c`, queued at
      the back, is the merge step on the queue of trees. */
  lemma DenotesMerge<E>(nodes: seq<HuffmanTreeNode<E>>, q: seq<Tree<E>>, S: set<object>, i: nat, j: nat, c: HuffmanTreeNode<E>)
    requires Denotes(nodes, q, S) && i < |nodes| && j < |nodes| - 1 && c !in S
    requires c.leftChild == nodes[i] && c.rightChild == Without(nodes, i)[j]
    requires c.value.None? && c.huffmanEncoding.None?
    requires c.frequency == nodes[i].frequency + Without(nodes, i)[j].frequency
    requires c.Repr == {c} + nodes[i].Repr + Without(nodes, i)[j].Repr
    ensures c.Valid() && c.Abs() == Merge(q, i, j)[|nodes| - 2]
    ensures Denotes(Without(Without(nodes, i), j) + [c], Merge(q, i, j), S + {c})
  {
    DenotesWithout(nodes, q, S, i);
    var rest1, qa := Without(nodes, i), Without(q, i);
    DenotesWithout(rest1, qa, S, j);
    assert c.Valid();
    assert forall k :: 0 <= k < |rest1| - 1 ==> Without(rest1, j)[k] == rest1[if k < j then k else k + 1];
    DenotesAppend(Without(rest1, j), Without(qa, j), S, c, S + {c});
  }

  /** One turn of the merge loop: two polls, a new internal node over the
      two nodes polled (the first on the left), and that node queued. */
  method MergeStep<E>(nodes: seq<HuffmanTreeNode<E>>, ghost q: seq<Tree<E>>, ghost m: map<E, int>,
                      ghost S: set<object>, ghost trace: seq<seq<Tree<E>>>)
    returns (nodes': seq<HuffmanTreeNode<E>>, ghost q': seq<Tree<E>>, ghost S': set<object>, ghost trace': seq<seq<Tree<E>>>)
    requires |nodes| > 1 && Denotes(nodes, q, S) && ForestOf(q, m) && PartialRun(trace, m, q)
    ensures |nodes'| == |nodes| - 1 && Denotes(nodes', q', S') && S <= S' && fresh(S' - S)
    ensures ForestOf(q', m) && PartialRun(trace', m, q')
    ensures trace' == trace + [q'] && exists i: nat, j: nat :: GreedyChoice(q, i, j) && q' == Merge(q, i, j)
  {
    var i, rest1 := Poll(nodes);
    var a := nodes[i];
    var j, rest2 := Poll(rest1);
    var b := rest1[j];
    DenotesWithout(nodes, q, S, i);
    var c := new HuffmanTreeNode.InternalNode(a.frequency + b.frequency, a, b);
    nodes' := rest2 + [c];
    DenotesMerge(nodes, q, S, i, j, c);
    ChoiceFromPoll(nodes, q, S, i, j);
    RunExtend(trace, m, q, i, j);
    MergePreserves(q, i, j, m);
    q' := Merge(q, i, j);
    trace' := trace + [q'];
    S' := S + {c};
  }

  /** One turn of the first loop: a new leaf node for `key`, one of the keys
      still to visit, at the back of the queue. */
  method AddLeafNode<E>(m: map<E, int>, keys: set<E>, key: E, nodes: seq<HuffmanTreeNode<E>>,
                        ghost q: seq<Tree<E>>, ghost S: set<object>)
    returns (node: HuffmanTreeNode<E>, nodes': seq<HuffmanTreeNode<E>>, ghost q': seq<Tree<E>>, ghost S': set<object>)
    requires keys <= m.Keys && key in keys && LeafForest(q, m - keys) && Denotes(nodes, q, S)
    ensures LeafForest(q', m - (keys - {key})) && Denotes(nodes', q', S') && S' == S + {node} && fresh(node)
    ensures nodes' == nodes + [node] && q' == q + [Leaf(key, m[key], None)]
  {
    node := new HuffmanTreeNode.LeafNode(key, m[key]);
    TakeKey(m, keys, key);
    AddLeaf(q, m - keys, key, m[key]);
    DenotesAppend(nodes, q, S, node, S + {node});
    nodes' := nodes + [node];
    q' := q + [Leaf(key, m[key], None)];
    S' := S + {node};
  }

  /** The first loop of the construction: one new leaf per entry of the table,
      in no particular order. `S` holds every node created. */
  method EnqueueLeaves<E>(m: map<E, int>)
    returns (nodes: seq<HuffmanTreeNode<E>>, ghost q: seq<Tree<E>>, ghost S: set<object>)
    ensures LeafForest(q, m) && Denotes(nodes, q, S) && fresh(S)
  {
    nodes, q, S := [], [], {};
    var keys := m.Keys;
    while keys != {}
      invariant fresh(S) && keys <= m.Keys && LeafForest(q, m - keys) && Denotes(nodes, q, S)
      decreases |keys|
    {
      var key :| key in keys;
      var node;
      node, nodes, q, S := AddLeafNode(m, keys, key, nodes, q, S);
      assert |keys - {key}| < |keys| by { TakeKey(m, keys, key); }
      keys := keys - {key};
    }
    NoKeysLeft(q, m, keys);
  }

  /** Once every key has been visited, the queue holds a leaf for each entry. */
  lemma NoKeysLeft<E>(q: seq<Tree<E>>, m: map<E, int>, keys: set<E>)
    requires keys == {} && LeafForest(q, m - keys)
    ensures LeafForest(q, m)
  {
    assert m - keys == m;
  }

  class HuffmanTree<E(==,!new)> {
    var root: HuffmanTreeNode?<E>
    var size: int
    var height: int
    var depthSum: int
    /** The tree the construction built, before codes were written into it. */
    ghost var built: Tree<E>
    /** The frequency table it was built from. */
    ghost var freqs: map<E, int>
    ghost var Repr: set<object>

    /** What holds once the tree is built: the nodes denote a Huffman tree for
        the table, with codes assigned, and `size` counts its nodes. */
    ghost predicate Built()
      reads this`root, this`built, this`freqs, this`size, this`Repr, root, if root != null then root.Repr else {}
    {
      this in Repr && root != null && root in Repr && root.Repr <= Repr && this !in root.Repr &&
      root.Valid() && IsHuffmanTree(built, freqs) &&
      root.Abs() == AssignCodes(built, "") && size == NodeCount(built)
    }

    /** What holds once the constructor is done: also the statistics are those of the tree. */
    ghost predicate Valid()
      reads this, root, if root != null then root.Repr else {}
    {
      Built() && height == Height(built) && depthSum == SumOf(Depths(built, 0))
    }

    /** Builds the tree for a non-empty table and measures it. */
    constructor (frequencies: map<E, int>)
      requires |frequencies| > 0
      ensures Valid() && fresh(Repr) && freqs == frequencies
      ensures size == 2 * |frequencies| - 1 && |Depths(built, 0)| == size
    {
      root := null;
      size := 0;
      height := 0;
      depthSum := 0;
      Repr := {this};
      freqs := frequencies;
      ghost var k0 :| k0 in frequencies;
      built := Leaf(k0, frequencies[k0], None);
      new;
      var r := CreateTree(frequencies);
      assert fresh(Repr) by {
        assert Repr == (Repr - {this}) + {this};
      }
      MeasureFromRoot();
      DepthsPerNode(built, 0);
      HuffmanTreeShape(built, freqs);
    }

    /** `calculateTreeStatistics(root, 0)` on a built tree with both
        statistics still zero: they become those of the tree. */
    method MeasureFromRoot()
      requires Built() && height == 0 && depthSum == 0
      modifies this`depthSum, this`height
      ensures Valid()
    {
      ghost var t := root.Abs();
      CalculateTreeStatistics(root, 0, t);
      MeasuredIsStatistics(t, 0, 0, 0);
      DepthsIgnoreCodes(built, "", 0);
      HighestDepth(built, 0, 0);
    }

    /** The two phases of the source: one uncoded leaf per table entry into the
        queue, then greedy merges of two least-frequency nodes until one is
        left; finally the codes are written into the leaves. */
    method CreateTree(frequencies: map<E, int>) returns (r: HuffmanTreeNode<E>)
      requires |frequencies| > 0
      modifies this
      ensures Built() && fresh(Repr - {this}) && r == root && freqs == frequencies
      ensures height == old(height) && depthSum == old(depthSum)
    {
      var top := BuildNodes(frequencies);
      ghost var t := top.Abs();
      GenerateBinaryStrings(top);
      root, built, freqs, Repr := top, t, frequencies, {this} + top.Repr;
      r := top;
    }

    /** The queue of leaves and the merge loop, with `size` set to the number
        of nodes made: the node left denotes a Huffman tree for the table. */
    method BuildNodes(frequencies: map<E, int>) returns (top: HuffmanTreeNode<E>)
      requires |frequencies| > 0
      modifies this`size
      ensures top.Valid() && fresh(top.Repr) && this !in top.Repr
      ensures IsHuffmanTree(top.Abs(), frequencies) && size == NodeCount(top.Abs())
    {
      var nodes, q, S := EnqueueLeaves(frequencies);
      size := |nodes|;
      ghost var trace;
      top, trace := MergeLowest(nodes, q, frequencies, S);
      assert GreedyRun(trace, frequencies, top.Abs());
      HuffmanTreeShape(top.Abs(), frequencies);
    }

    /** The merge loop: while more than one node is queued, two nodes of least
        frequency are joined, and `size` counts the new nodes. The run of the
        loop is a greedy run for `m` that ends with the tree of the node left. */
    method MergeLowest(nodes0: seq<HuffmanTreeNode<E>>, ghost q0: seq<Tree<E>>, ghost m: map<E, int>, ghost S: set<object>)
      returns (r: HuffmanTreeNode<E>, ghost trace: seq<seq<Tree<E>>>)
      requires |m| > 0 && LeafForest(q0, m) && Denotes(nodes0, q0, S) && this !in S
      modifies this`size
      ensures r.Valid() && fresh(r.Repr - S) && this !in r.Repr
      ensures GreedyRun(trace, m, r.Abs()) && size == old(size) + |m| - 1
    {
      var nodes := nodes0;
      ghost var q := q0;
      ghost var S' := S;
      LeafForestIsForest(q, m);
      trace := [q];
      assert PartialRun(trace, m, q);
      while |nodes| > 1
        invariant 1 <= |nodes| && Denotes(nodes, q, S') && S <= S' && fresh(S' - S) && this !in S'
        invariant ForestOf(q, m) && size - old(size) + |nodes| == |m| && PartialRun(trace, m, q)
        decreases |nodes|
      {
        nodes, q, S', trace := MergeStep(nodes, q, m, S', trace);
        size := size + 1;
      }
      r := nodes[0];
      assert q == [r.Abs()];
      assert GreedyRun(trace, m, r.Abs());
    }

    /** Code assignment from the root, starting with the empty code. */
    method GenerateBinaryStrings(n: HuffmanTreeNode<E>)
      requires n.Valid()
      modifies n.Repr
      ensures n.Valid() && n.Repr == old(n.Repr)
      ensures n.Abs() == AssignCodes(old(n.Abs()), "")
    {
      GenerateBinaryStringsFrom(n, "");
    }

    /** Writes `code` into a leaf; below an internal node, `code` + "1" on the
        left and `code` + "0" on the right. */
    method GenerateBinaryStringsFrom(n: HuffmanTreeNode<E>, code: string)
      requires n.Valid()
      modifies n.Repr
      ensures n.Valid() && n.Repr == old(n.Repr)
      ensures n.Abs() == AssignCodes(old(n.Abs()), code)
      decreases n.Repr
    {
      if n.IsLeaf() {
        n.SetHuffmanEncoding(Some(code));
        return;
      }
      if n.leftChild != null {
        GenerateBinaryStringsFrom(n.leftChild, code + "1");
      }
      if n.rightChild != null {
        GenerateBinaryStringsFrom(n.rightChild, code + "0");
      }
    }

    /** Breadth-first search from the root for the node holding `value`, left
        child before right child; null when there is none. */
    method Find(value: E) returns (r: HuffmanTreeNode?<E>)
      requires Built()
      ensures r == null <==> Search([root.Abs()], value).None?
      ensures r != null ==>
        r in root.Repr && r.Valid() && r.IsLeaf() && Search([root.Abs()], value) == Some(r.Abs())
    {
      var queue: seq<HuffmanTreeNode<E>> := [root];
      ghost var tq := [root.Abs()];
      while queue != []
        invariant Queued(queue, tq, root.Repr)
        invariant Search(tq, value) == Search([root.Abs()], value)
        decreases ForestSize(tq)
      {
        var n := queue[0];
        IsLeafDenotesLeaf(n);
        if n.value == Some(value) {
          return n;
        }
        ghost var next := NextQueue(tq);
        QueueNext(queue, tq, root.Repr);
        queue := queue[1..];
        if n.leftChild != null {
          queue := queue + [n.leftChild];
        }
        if n.rightChild != null {
          queue := queue + [n.rightChild];
        }
        tq := next;
      }
      return null;
    }

    /** The code of `value`, `None` where the source dereferences null
        because `find` found nothing: a value of the table gets the
        code that leads from the root to its leaf. */
    method GetHuffmanEncoding(value: E) returns (code: Option<string>)
      requires Built()
      ensures code == CodeOf(root.Abs(), value)
      ensures code.Some? <==> value in freqs
      ensures code.Some? ==> CodeFor(built, value, code.value)
    {
      var n := Find(value);
      if n == null {
        code := None;
      } else {
        IsLeafDenotesLeaf(n);
        code := n.huffmanEncoding;
      }
      HuffmanTreeShape(built, freqs);
      CodeOfAssigned(built, value);
    }

    /** Adds the depths of all nodes below `n` to `depthSum` and raises
        `height` to the greatest of them; `t` is the tree `n` denotes. */
    method CalculateTreeStatistics(n: HuffmanTreeNode<E>, currentDepth: int, ghost t: Tree<E>)
      requires n.Valid() && n.Abs() == t && this !in n.Repr
      modifies this`depthSum, this`height
      ensures (depthSum, height) == Measured(t, currentDepth, old(depthSum), old(height))
      decreases n.Repr
    {
      IsLeafDenotesLeaf(n);
      var left, right := n.leftChild, n.rightChild;
      depthSum, height := depthSum + currentDepth, if currentDepth > height then currentDepth else height;
      if left != null {
        assert unchanged(n.Repr);
        CalculateTreeStatistics(left, currentDepth + 1, t.left);
      }
      if right != null {
        assert unchanged(n.Repr);
        CalculateTreeStatistics(right, currentDepth + 1, t.right);
      }
    }

    /** The number of nodes: twice the number of table entries, less one. */
    method GetSize() returns (s: int)
      requires Built()
      ensures s == 2 * |freqs| - 1
    {
      s := size;
      HuffmanTreeShape(built, freqs);
    }

    /** The height: the length of the longest code. */
    method GetHeight() returns (h: int)
      requires Valid()
      ensures forall k :: 0 <= k < |Paths(built)| ==> |Paths(built)[k]| <= h
      ensures exists k :: 0 <= k < |Paths(built)| && |Paths(built)[k]| == h
    {
      h := height;
      HeightIsLongestPath(built);
    }
  }

  /** The queue of the search `queue` denotes the queue of trees `tq`, within `R`. */
  ghost predicate Queued<E>(queue: seq<HuffmanTreeNode<E>>, tq: seq<Tree<E>>, R: set<object>)
    reads R
  {
    |queue| == |tq| &&
    forall k :: 0 <= k < |queue| ==>
      queue[k] in R && queue[k].Repr <= R && queue[k].Valid() && queue[k].Abs() == tq[k]
  }

  /** One turn of the search loop: the node at the front goes, its children
      join at the back, and the queue denotes the next queue of trees. */
  lemma QueueNext<E>(queue: seq<HuffmanTreeNode<E>>, tq: seq<Tree<E>>, R: set<object>)
    requires Queued(queue, tq, R) && queue != []
    ensures queue[0].leftChild == null <==> queue[0].rightChild == null
    ensures queue[0].leftChild == null ==> Queued(queue[1..], NextQueue(tq), R)
    ensures queue[0].leftChild != null ==>
      Queued(queue[1..] + [queue[0].leftChild] + [queue[0].rightChild], NextQueue(tq), R)
  {
    var n := queue[0];
    IsLeafDenotesLeaf(n);
    var nq := NextQueue(tq);
    if n.leftChild == null {
      assert nq == tq[1..] + [];
      forall k | 0 <= k < |queue| - 1
        ensures queue[1..][k] in R && queue[1..][k].Repr <= R
        ensures queue[1..][k].Valid() && queue[1..][k].Abs() == nq[k]
      {
        assert queue[1..][k] == queue[k + 1] && nq[k] == tq[k + 1];
      }
    } else {
      var q' := queue[1..] + [n.leftChild] + [n.rightChild];
      assert nq == tq[1..] + [tq[0].left, tq[0].right];
      forall k | 0 <= k < |q'|
        ensures q'[k] in R && q'[k].Repr <= R && q'[k].Valid() && q'[k].Abs() == nq[k]
      {
        if k < |queue| - 1 {
          assert q'[k] == queue[k + 1] && nq[k] == tq[k + 1];
        } else if k == |queue| - 1 {
          assert q'[k] == n.leftChild && nq[k] == tq[0].left;
        } else {
          assert q'[k] == n.rightChild && nq[k] == tq[0].right;
        }
      }
    }
  }

  /** Moving `key` out of the keys still to visit adds its entry to those visited. */
  lemma TakeKey<E>(m: map<E, int>, keys: set<E>, key: E)
    requires keys <= m.Keys && key in keys
    ensures key !in m - keys && (m - keys)[key := m[key]] == m - (keys - {key})
    ensures |keys - {key}| < |keys|
  {
    assert keys == (keys - {key}) + {key};
  }

  /** Putting a new leaf for an entry not yet taken keeps the queue one leaf per taken entry. */
  lemma AddLeaf<E>(q: seq<Tree<E>>, taken: map<E, int>, key: E, f: int)
    requires LeafForest(q, taken) && key !in taken
    ensures LeafForest(q + [Leaf(key, f, None)], taken[key := f])
  {
    var q' := q + [Leaf(key, f, None)];
    forall a, b | 0 <= a < b < |q'| ensures q'[a].sym != q'[b].sym {
      if b == |q| {
        assert q'[a].sym in taken;
      }
    }
  }

  /** What the statistics traversal leaves in the two counters, starting from
      `sum` and `h`, when it visits `t` at depth `d`: the node first, then
      its left and its right subtree. */
  function Measured<E>(t: Tree<E>, d: int, sum: int, h: int): (int, int)
  {
    var sum', h' := sum + d, if d > h then d else h;
    match t
    case Leaf(_, _, _) => (sum', h')
    case Node(_, l, r) =>
      var (sumL, hL) := Measured(l, d + 1, sum', h');
      Measured(r, d + 1, sumL, hL)
  }

  /** The traversal adds the depths of all nodes to the sum and raises the
      height to the largest of them. */
  lemma {:induction false} MeasuredIsStatistics<E>(t: Tree<E>, d: int, sum: int, h: int)
    ensures Measured(t, d, sum, h) == (sum + SumOf(Depths(t, d)), Highest(h, Depths(t, d)))
  {
    DepthsStep(t, d, h);
    if t.Node? {
      var h', dl := if d > h then d else h, Depths(t.left, d + 1);
      MeasuredIsStatistics(t.left, d + 1, sum + d, h');
      var (sumL, hL) := Measured(t.left, d + 1, sum + d, h');
      assert Measured(t, d, sum, h) == Measured(t.right, d + 1, sumL, hL);
      MeasuredIsStatistics(t.right, d + 1, sumL, hL);
    }
  }

  /** The depths below a node split into its own depth and those of its two subtrees. */
  lemma DepthsStep<E>(t: Tree<E>, d: int, h: int)
    ensures t.Leaf? ==>
      SumOf(Depths(t, d)) == d && Highest(h, Depths(t, d)) == if d > h then d else h
    ensures t.Node? ==>
      SumOf(Depths(t, d)) == d + SumOf(Depths(t.left, d + 1)) + SumOf(Depths(t.right, d + 1)) &&
      Highest(h, Depths(t, d)) ==
        Highest(Highest(if d > h then d else h, Depths(t.left, d + 1)), Depths(t.right, d + 1))
  {
    if t.Leaf? {
      assert Depths(t, d) == [d] && [d][1..] == [];
    } else {
      var dl, dr := Depths(t.left, d + 1), Depths(t.right, d + 1);
      assert Depths(t, d) == [d] + (dl + dr);
      assert ([d] + (dl + dr))[1..] == dl + dr;
      SumOfConcat(dl, dr);
      HighestConcat(if d > h then d else h, dl, dr);
    }
  }
}
