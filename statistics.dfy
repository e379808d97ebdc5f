/**
 * What `HuffmanTree.calculateTreeStatistics` accumulates, on tree values: the
 * depth of every node, leaves and internal ones alike, visited in pre-order.
 */
module Statistics {
  import opened CodeTree
  import opened Codes

  /** The depths of all nodes of `t` in pre-order, the root being at depth `d`. */
  function Depths<E>(t: Tree<E>, d: int): seq<int>
  {
    match t
    case Leaf(_, _, _) => [d]
    case Node(_, l, r) => [d] + Depths(l, d + 1) + Depths(r, d + 1)
  }

  /** The sum of a sequence. */
  function SumOf(s: seq<int>): int
  {
    if s == [] then 0 else s[0] + SumOf(s[1..])
  }

  /** The largest of `h` and the elements of `s`: a running maximum that starts at `h`. */
  function Highest(h: int, s: seq<int>): int
    decreases |s|
  {
    if s == [] then h else Highest(if s[0] > h then s[0] else h, s[1..])
  }

  /** The height of a tree: a leaf has height 0. */
  function Height<E>(t: Tree<E>): nat
  {
    match t
    case Leaf(_, _, _) => 0
    case Node(_, l, r) =>
      var hl, hr := Height(l), Height(r);
      1 + if hl > hr then hl else hr
  }

  lemma {:induction false} SumOfConcat(a: seq<int>, b: seq<int>)
    ensures SumOf(a + b) == SumOf(a) + SumOf(b)
  {
    if a == [] {
      assert a + b == b;
    } else {
      assert (a + b)[1..] == a[1..] + b;
      SumOfConcat(a[1..], b);
    }
  }

  lemma {:induction false} HighestConcat(h: int, a: seq<int>, b: seq<int>)
    ensures Highest(h, a + b) == Highest(Highest(h, a), b)
    decreases |a|
  {
    if a == [] {
      assert a + b == b;
    } else {
      assert (a + b)[1..] == a[1..] + b;
      HighestConcat(if a[0] > h then a[0] else h, a[1..], b);
    }
  }

  /** The running maximum is at least where it starts and at least every
      element, and it is one of them. */
  lemma {:induction false} HighestIsMax(h: int, s: seq<int>)
    ensures Highest(h, s) >= h
    ensures forall k :: 0 <= k < |s| ==> Highest(h, s) >= s[k]
    ensures Highest(h, s) == h || exists k :: 0 <= k < |s| && Highest(h, s) == s[k]
    decreases |s|
  {
    if s != [] {
      HighestIsMax(if s[0] > h then s[0] else h, s[1..]);
      assert forall k :: 1 <= k < |s| ==> s[k] == s[1..][k - 1];
    }
  }

  /** There is one depth per node. */
  lemma {:induction false} DepthsPerNode<E>(t: Tree<E>, d: int)
    ensures |Depths(t, d)| == NodeCount(t)
  {
    match t
    case Leaf(_, _, _) =>
    case Node(_, l, r) =>
      DepthsPerNode(l, d + 1);
      DepthsPerNode(r, d + 1);
  }

  /** The leaf depths are among the depths of all nodes: no depth occurs more
      often among the leaves than among all nodes. */
  lemma {:induction false} LeafDepthsInDepths<E>(t: Tree<E>, d: int)
    ensures forall x :: multiset(LeafDepths(t, d))[x] <= multiset(Depths(t, d))[x]
  {
    match t
    case Leaf(_, _, _) =>
    case Node(_, l, r) =>
      LeafDepthsInDepths(l, d + 1);
      LeafDepthsInDepths(r, d + 1);
      var ls, rs := LeafDepths(l, d + 1), LeafDepths(r, d + 1);
      var la, ra := Depths(l, d + 1), Depths(r, d + 1);
      assert LeafDepths(t, d) == ls + rs;
      assert Depths(t, d) == [d] + la + ra;
      forall x ensures multiset(ls + rs)[x] <= multiset([d] + la + ra)[x] {
        assert multiset(ls + rs)[x] == multiset(ls)[x] + multiset(rs)[x];
        assert multiset([d] + la + ra)[x] == multiset([d])[x] + multiset(la)[x] + multiset(ra)[x];
      }
  }

  /** Every node that is not a leaf is an internal node: one fewer than the leaves. */
  lemma {:induction false} DepthsOfLeavesCount<E>(t: Tree<E>, d: int)
    ensures |Depths(t, d)| == 2 * |LeafDepths(t, d)| - 1
  {
    match t
    case Leaf(_, _, _) =>
    case Node(_, l, r) =>
      DepthsOfLeavesCount(l, d + 1);
      DepthsOfLeavesCount(r, d + 1);
  }

  /** Starting from `h`, the running maximum over the depths below a root at
      depth `d` is the larger of `h` and the depth of the deepest node. */
  lemma {:induction false} HighestDepth<E>(t: Tree<E>, d: int, h: int)
    ensures Highest(h, Depths(t, d)) == if d + Height(t) > h then d + Height(t) else h
  {
    match t
    case Leaf(_, _, _) =>
    case Node(_, l, r) =>
      var h1 := if d > h then d else h;
      assert [d] + Depths(l, d + 1) + Depths(r, d + 1) == [d] + (Depths(l, d + 1) + Depths(r, d + 1));
      assert ([d] + (Depths(l, d + 1) + Depths(r, d + 1)))[1..] == Depths(l, d + 1) + Depths(r, d + 1);
      HighestConcat(h1, Depths(l, d + 1), Depths(r, d + 1));
      HighestDepth(l, d + 1, h1);
      HighestDepth(r, d + 1, Highest(h1, Depths(l, d + 1)));
  }

  /** The height is the length of the longest code: every code is at most that
      long and some code is exactly that long. */
  lemma {:induction false} HeightIsLongestPath<E>(t: Tree<E>)
    ensures forall k :: 0 <= k < |Paths(t)| ==> |Paths(t)[k]| <= Height(t)
    ensures exists k :: 0 <= k < |Paths(t)| && |Paths(t)[k]| == Height(t)
  {
    match t
    case Leaf(_, _, _) =>
      assert |Paths(t)[0]| == 0;
    case Node(_, l, r) =>
      HeightIsLongestPath(l);
      HeightIsLongestPath(r);
      var n := |Paths(l)|;
      forall k | 0 <= k < |Paths(t)| ensures |Paths(t)[k]| <= Height(t) {
        PathOfNode(t, k);
      }
      if Height(l) >= Height(r) {
        var k :| 0 <= k < n && |Paths(l)[k]| == Height(l);
        PathOfNode(t, k);
      } else {
        var k :| 0 <= k < |Paths(r)| && |Paths(r)[k]| == Height(r);
        PathOfNode(t, n + k);
      }
  }

  /** Code assignment changes no depth. */
  lemma {:induction false} DepthsIgnoreCodes<E>(t: Tree<E>, prefix: string, d: int)
    ensures Depths(AssignCodes(t, prefix), d) == Depths(t, d)
    ensures Height(AssignCodes(t, prefix)) == Height(t)
  {
    match t
    case Leaf(_, _, _) =>
    case Node(_, l, r) =>
      DepthsIgnoreCodes(l, prefix + "1", d + 1);
      DepthsIgnoreCodes(r, prefix + "0", d + 1);
  }

  /** A single node has height 0 and depth sum 0. */
  lemma SingleNodeStatistics<E>(t: Tree<E>)
    requires t.Leaf?
    ensures Highest(0, Depths(t, 0)) == 0 && SumOf(Depths(t, 0)) == 0
  {
    assert Depths(t, 0) == [0] && [0][1..] == [];
  }
}
