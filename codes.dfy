/**
 * Code assignment (`generateBinaryStrings`) on tree values: a pre-order walk
 * that appends '1' on the way into a left child and '0' on the way into a right
 * child, and gives every leaf the string built on the way down.
 */
module Codes {
  import opened Wrappers
  import opened CodeTree

  /** The tree with every leaf's code set to `prefix` followed by its path. */
  function AssignCodes<E>(t: Tree<E>, prefix: string): (r: Tree<E>)
    ensures r.Leaf? == t.Leaf? && r.freq == t.freq
    ensures r.Leaf? ==> r.sym == t.sym && r.code == Some(prefix)
  {
    match t
    case Leaf(s, f, _) => Leaf(s, f, Some(prefix))
    case Node(f, l, r) => Node(f, AssignCodes(l, prefix + "1"), AssignCodes(r, prefix + "0"))
  }

  /** `c` in front of every string of `ps`. */
  function Prepend(c: char, ps: seq<string>): seq<string>
  {
    seq(|ps|, k requires 0 <= k < |ps| => [c] + ps[k])
  }

  /** The root-to-leaf paths, leaf by leaf in the order of `Leaves`:
      '1' for a step to the left child, '0' for a step to the right child. */
  function Paths<E>(t: Tree<E>): seq<string>
  {
    match t
    case Leaf(_, _, _) => [""]
    case Node(_, l, r) => Prepend('1', Paths(l)) + Prepend('0', Paths(r))
  }

  /** The subtree reached from the root of `t` by reading `bits` as steps. */
  function Follow<E>(t: Tree<E>, bits: string): Option<Tree<E>>
  {
    if bits == [] then Some(t)
    else match t
      case Leaf(_, _, _) => None
      case Node(_, l, r) =>
        if bits[0] == '1' then Follow(l, bits[1..])
        else if bits[0] == '0' then Follow(r, bits[1..])
        else None
  }

  /** The depth of every leaf below a root at depth `d`, in the order of `Leaves`. */
  function LeafDepths<E>(t: Tree<E>, d: int): seq<int>
  {
    match t
    case Leaf(_, _, _) => [d]
    case Node(_, l, r) => LeafDepths(l, d + 1) + LeafDepths(r, d + 1)
  }

  /** `c` is the code of a leaf labelled `v`. */
  ghost predicate CodeFor<E>(t: Tree<E>, v: E, c: string)
  {
    exists k :: 0 <= k < |Leaves(t)| && k < |Paths(t)| && Leaves(t)[k].sym == v && Paths(t)[k] == c
  }

  /** The `k`-th path below a node: a step into the child whose leaves hold
      index `k`, then that child's path. */
  lemma PathOfNode<E>(t: Tree<E>, k: nat)
    requires t.Node? && k < |Paths(t)|
    ensures |Paths(t)| == |Paths(t.left)| + |Paths(t.right)|
    ensures k < |Paths(t.left)| ==> Paths(t)[k] == ['1'] + Paths(t.left)[k]
    ensures k >= |Paths(t.left)| ==> Paths(t)[k] == ['0'] + Paths(t.right)[k - |Paths(t.left)|]
  {
  }

  /** There is one path per leaf. */
  lemma {:induction false} PathsPerLeaf<E>(t: Tree<E>)
    ensures |Paths(t)| == |Leaves(t)|
  {
    match t
    case Leaf(_, _, _) =>
    case Node(_, l, r) =>
      PathsPerLeaf(l);
      PathsPerLeaf(r);
  }

  /** Code assignment labels every leaf with `prefix` and its root-to-leaf path,
      keeps every symbol and frequency, and is all that changes. */
  lemma {:induction false} AssignCodesLabelsLeaves<E>(t: Tree<E>, prefix: string)
    ensures |Leaves(AssignCodes(t, prefix))| == |Leaves(t)| == |Paths(t)|
    ensures forall k :: 0 <= k < |Leaves(t)| ==>
      Leaves(AssignCodes(t, prefix))[k] ==
        Leaf(Leaves(t)[k].sym, Leaves(t)[k].freq, Some(prefix + Paths(t)[k]))
  {
    PathsPerLeaf(t);
    match t
    case Leaf(_, _, _) =>
      assert prefix + Paths(t)[0] == prefix;
    case Node(_, l, r) =>
      AssignCodesLabelsLeaves(l, prefix + "1");
      AssignCodesLabelsLeaves(r, prefix + "0");
      var n := |Leaves(l)|;
      forall k | 0 <= k < |Leaves(t)|
        ensures Leaves(AssignCodes(t, prefix))[k] ==
          Leaf(Leaves(t)[k].sym, Leaves(t)[k].freq, Some(prefix + Paths(t)[k]))
      {
        if k < n {
          assert prefix + "1" + Paths(l)[k] == prefix + ([ '1' ] + Paths(l)[k]);
        } else {
          assert prefix + "0" + Paths(r)[k - n] == prefix + ([ '0' ] + Paths(r)[k - n]);
        }
      }
  }

  /** Code assignment changes nothing but the codes: the number of nodes, the
      symbols, the root frequency, the uniqueness of symbols and the frequency
      sums stay as they were. */
  lemma {:induction false} AssignCodesKeepsShape<E>(t: Tree<E>, prefix: string)
    ensures NodeCount(AssignCodes(t, prefix)) == NodeCount(t)
    ensures Syms(AssignCodes(t, prefix)) == Syms(t)
    ensures AssignCodes(t, prefix).freq == t.freq
    ensures UniqueSyms(AssignCodes(t, prefix)) == UniqueSyms(t)
    ensures SumsHold(AssignCodes(t, prefix)) == SumsHold(t)
  {
    match t
    case Leaf(_, _, _) =>
    case Node(_, l, r) =>
      AssignCodesKeepsShape(l, prefix + "1");
      AssignCodesKeepsShape(r, prefix + "0");
  }

  /** Each path leads from the root to its own leaf. */
  lemma {:induction false} PathsLeadToLeaves<E>(t: Tree<E>)
    ensures |Paths(t)| == |Leaves(t)|
    ensures forall k :: 0 <= k < |Paths(t)| ==> Follow(t, Paths(t)[k]) == Some(Leaves(t)[k])
  {
    PathsPerLeaf(t);
    match t
    case Leaf(_, _, _) =>
    case Node(_, l, r) =>
      PathsLeadToLeaves(l);
      PathsLeadToLeaves(r);
      var n := |Paths(l)|;
      forall k | 0 <= k < |Paths(t)| ensures Follow(t, Paths(t)[k]) == Some(Leaves(t)[k]) {
        var p := Paths(t)[k];
        if k < n {
          assert p == ['1'] + Paths(l)[k] && p[1..] == Paths(l)[k];
        } else {
          assert p == ['0'] + Paths(r)[k - n] && p[1..] == Paths(r)[k - n];
        }
      }
  }

  /** A code is as long as its leaf is deep. */
  lemma {:induction false} PathLengthIsDepth<E>(t: Tree<E>, d: int)
    ensures |LeafDepths(t, d)| == |Paths(t)|
    ensures forall k :: 0 <= k < |Paths(t)| ==> LeafDepths(t, d)[k] == d + |Paths(t)[k]|
  {
    match t
    case Leaf(_, _, _) =>
    case Node(_, l, r) =>
      PathLengthIsDepth(l, d + 1);
      PathLengthIsDepth(r, d + 1);
  }

  /** Below a root with children, no path is empty and no path is a prefix of
      another (`<=` on sequences is the prefix order). */
  lemma {:induction false} PathsPrefixFree<E>(t: Tree<E>)
    requires t.Node?
    ensures forall a :: 0 <= a < |Paths(t)| ==> |Paths(t)[a]| > 0
    ensures forall a, b :: 0 <= a < |Paths(t)| && 0 <= b < |Paths(t)| && a != b ==>
      !(Paths(t)[a] <= Paths(t)[b])
  {
    var l, r := t.left, t.right;
    var pl, pr := Paths(l), Paths(r);
    var p := Paths(t);
    var n := |pl|;
    if l.Node? { PathsPrefixFree(l); }
    if r.Node? { PathsPrefixFree(r); }
    forall a, b | 0 <= a < |p| && 0 <= b < |p| && a != b ensures !(p[a] <= p[b]) {
      var ca, xa := if a < n then '1' else '0', if a < n then pl[a] else pr[a - n];
      var cb, xb := if b < n then '1' else '0', if b < n then pl[b] else pr[b - n];
      assert p[a] == [ca] + xa && p[b] == [cb] + xb;
      PrefixOfPrepended(ca, cb, xa, xb);
    }
  }

  /** Prefixes of strings that start with one character each. */
  lemma PrefixOfPrepended(c: char, d: char, x: string, y: string)
    ensures ([c] + x <= [d] + y) <==> (c == d && x <= y)
  {
    if [c] + x <= [d] + y {
      assert ([c] + x)[0] == c && ([d] + y)[0] == d;
      assert forall k :: 0 <= k < |x| ==> x[k] == ([c] + x)[k + 1];
    }
    if c == d && x <= y {
      assert forall k :: 0 <= k < |x| ==> x[k] == ([c] + x)[k + 1];
    }
  }

  /** Following a code of `v` reaches the leaf labelled `v`. */
  lemma CodeForLeadsToLeaf<E>(t: Tree<E>, v: E, c: string)
    requires CodeFor(t, v, c)
    ensures Follow(t, c).Some? && Follow(t, c).value.Leaf? && Follow(t, c).value.sym == v
    ensures t.Node? ==> |c| > 0
  {
    var k :| 0 <= k < |Leaves(t)| && k < |Paths(t)| && Leaves(t)[k].sym == v && Paths(t)[k] == c;
    PathsLeadToLeaves(t);
    if t.Node? { PathsPrefixFree(t); }
  }

  /** With unique symbols, a symbol has at most one code. */
  lemma CodeForUnique<E>(t: Tree<E>, v: E, c1: string, c2: string)
    requires UniqueSyms(t) && CodeFor(t, v, c1) && CodeFor(t, v, c2)
    ensures c1 == c2
  {
    var k1 :| 0 <= k1 < |Leaves(t)| && k1 < |Paths(t)| && Leaves(t)[k1].sym == v && Paths(t)[k1] == c1;
    var k2 :| 0 <= k2 < |Leaves(t)| && k2 < |Paths(t)| && Leaves(t)[k2].sym == v && Paths(t)[k2] == c2;
    if k1 < k2 { UniqueSymsDistinct(t, k1, k2); }
    else if k2 < k1 { UniqueSymsDistinct(t, k2, k1); }
  }
}
