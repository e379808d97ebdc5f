/**
 * `HuffmanTree.find` and `getHuffmanEncoding` on tree values: a breadth-first
 * search that takes trees off the front of a queue, stops at the first leaf
 * holding the value, and otherwise puts the left and then the right child at
 * the back.
 */
module Lookup {
  import opened Wrappers
  import opened CodeTree
  import opened Codes

  /** The children of a node, left first; a leaf has none. */
  function Children<E>(t: Tree<E>): (cs: seq<Tree<E>>)
    ensures ForestSize(cs) == NodeCount(t) - 1
  {
    match t
    case Leaf(_, _, _) => []
    case Node(_, l, r) =>
      assert [l, r][1..] == [r];
      assert ForestSize([r]) == NodeCount(r) + ForestSize([r][1..]);
      [l, r]
  }

  /** The state of the search loop after one more turn. */
  function NextQueue<E>(q: seq<Tree<E>>): (r: seq<Tree<E>>)
    requires q != []
    ensures ForestSize(r) < ForestSize(q)
  {
    ForestConcat(q[1..], Children(q[0]));
    q[1..] + Children(q[0])
  }

  /** The breadth-first search of `q` for a leaf holding `v`; `None` where the
      source returns null. (Internal nodes hold no value, so they never match.) */
  function Search<E(==)>(q: seq<Tree<E>>, v: E): (r: Option<Tree<E>>)
    ensures r.Some? ==> r.value.Leaf? && r.value.sym == v
    decreases ForestSize(q)
  {
    if q == [] then None
    else if q[0].Leaf? && q[0].sym == v then Some(q[0])
    else Search(NextQueue(q), v)
  }

  /** The search finds something exactly when `v` labels a leaf of the queue,
      and what it finds is such a leaf. */
  lemma {:induction false} SearchFinds<E>(q: seq<Tree<E>>, v: E)
    ensures Search(q, v).Some? <==> v in ForestSyms(q)
    ensures Search(q, v).Some? ==>
      Search(q, v).value.Leaf? && Search(q, v).value.sym == v &&
      Search(q, v).value in ForestLeaves(q)
    decreases ForestSize(q)
  {
    if q == [] {
    } else if q[0].Leaf? && q[0].sym == v {
      assert Leaves(q[0]) == [q[0]];
    } else {
      var q' := NextQueue(q);
      SearchFinds(q', v);
      ForestConcat(q[1..], Children(q[0]));
      ChildrenCover(q[0]);
    }
  }

  /** The children of a node hold its leaves and symbols; a leaf has none. */
  lemma ChildrenCover<E>(t: Tree<E>)
    ensures t.Leaf? ==> Children(t) == [] && Leaves(t) == [t] && Syms(t) == {t.sym}
    ensures t.Node? ==> ForestLeaves(Children(t)) == Leaves(t) && ForestSyms(Children(t)) == Syms(t)
  {
    if t.Node? {
      assert Children(t) == [t.left] + [t.right];
      ForestConcat([t.left], [t.right]);
      Singleton(t.left);
      Singleton(t.right);
    }
  }

  /** In a tree with unique symbols, the search for a leaf's symbol finds that leaf. */
  lemma FindsTheLeaf<E>(t: Tree<E>, v: E, k: nat)
    requires UniqueSyms(t) && k < |Leaves(t)| && Leaves(t)[k].sym == v
    ensures Search([t], v) == Some(Leaves(t)[k])
  {
    SearchFinds([t], v);
    Singleton(t);
    LeafSymInSyms(t, k);
    var x := Search([t], v).value;
    var k' :| 0 <= k' < |Leaves(t)| && Leaves(t)[k'] == x;
    if k' < k { UniqueSymsDistinct(t, k', k); }
    else if k < k' { UniqueSymsDistinct(t, k, k'); }
  }

  /** What `getHuffmanEncoding` returns for `v`: the code of the leaf `find`
      reaches. `None` stands for both the source's null dereference when
      nothing is found and a leaf that has no code yet. */
  function CodeOf<E(==)>(t: Tree<E>, v: E): Option<string>
  {
    match Search([t], v)
    case None => None
    case Some(x) => x.code
  }

  /** After code assignment, the code of `v` is its root-to-leaf path, and there
      is a code exactly for the symbols of the tree. */
  lemma CodeOfAssigned<E>(t: Tree<E>, v: E)
    requires UniqueSyms(t)
    ensures CodeOf(AssignCodes(t, ""), v).Some? <==> v in Syms(t)
    ensures forall c :: CodeOf(AssignCodes(t, ""), v) == Some(c) <==> CodeFor(t, v, c)
  {
    var t' := AssignCodes(t, "");
    forall c ensures CodeOf(t', v) == Some(c) <==> CodeFor(t, v, c) {
      if CodeOf(t', v) == Some(c) {
        AssignedCodeIsPath(t, v, c);
      }
      if CodeFor(t, v, c) {
        PathIsAssignedCode(t, v, c);
      }
    }
    if CodeOf(t', v).Some? {
      AssignedCodeIsPath(t, v, CodeOf(t', v).value);
      var k :| 0 <= k < |Leaves(t)| && k < |Paths(t)| && Leaves(t)[k].sym == v && Paths(t)[k] == CodeOf(t', v).value;
      LeafSymInSyms(t, k);
    }
    if v in Syms(t) {
      var k := LeafOf(t, v);
      PathsPerLeaf(t);
      PathIsAssignedCode(t, v, Paths(t)[k]);
    }
  }

  /** The code the search finds after code assignment is the path to a leaf of `v`. */
  lemma AssignedCodeIsPath<E>(t: Tree<E>, v: E, c: string)
    requires CodeOf(AssignCodes(t, ""), v) == Some(c)
    ensures CodeFor(t, v, c)
  {
    var t' := AssignCodes(t, "");
    AssignCodesLabelsLeaves(t, "");
    SearchFinds([t'], v);
    Singleton(t');
    var x := Search([t'], v).value;
    var k :| 0 <= k < |Leaves(t')| && Leaves(t')[k] == x;
    assert "" + Paths(t)[k] == Paths(t)[k];
    assert Leaves(t)[k].sym == v && Paths(t)[k] == c;
  }

  /** In a tree with unique symbols, the path to the leaf of `v` is the code
      the search finds after code assignment. */
  lemma PathIsAssignedCode<E>(t: Tree<E>, v: E, c: string)
    requires UniqueSyms(t) && CodeFor(t, v, c)
    ensures CodeOf(AssignCodes(t, ""), v) == Some(c)
  {
    var t' := AssignCodes(t, "");
    AssignCodesLabelsLeaves(t, "");
    AssignCodesKeepsShape(t, "");
    var k :| 0 <= k < |Leaves(t)| && k < |Paths(t)| && Leaves(t)[k].sym == v && Paths(t)[k] == c;
    FindsTheLeaf(t', v, k);
    assert "" + Paths(t)[k] == Paths(t)[k];
  }

  /** A symbol of the tree labels some leaf. */
  lemma {:induction false} LeafOf<E>(t: Tree<E>, v: E) returns (k: nat)
    requires v in Syms(t)
    ensures k < |Leaves(t)| && Leaves(t)[k].sym == v
  {
    match t
    case Leaf(_, _, _) => k := 0;
    case Node(_, l, r) =>
      if v in Syms(l) {
        k := LeafOf(l, v);
      } else {
        var k' := LeafOf(r, v);
        k := |Leaves(l)| + k';
      }
  }

  // ---------------------------------------------------------------------------
  // `find` as written: `n.getValue() == value` compares boxed characters by
  // reference.

  /** Whether that `==` holds between a character boxed when the text was
      counted (the key stored in the leaf) and the same or another character
      boxed again when the text is encoded. Java boxes '\U{0}' to '\U{7F}' to
      shared cached objects and every other character to a new object. */
  predicate SameBox(stored: char, sought: char)
  {
    stored == sought && stored as int <= 0x7F
  }

  /** The breadth-first search of `find` with the comparison as written. */
  function SearchBoxed(q: seq<Tree<char>>, v: char): (r: Option<Tree<char>>)
    ensures r.Some? ==> r.value.Leaf? && r.value.sym == v
    decreases ForestSize(q)
  {
    if q == [] then None
    else if q[0].Leaf? && SameBox(q[0].sym, v) then Some(q[0])
    else SearchBoxed(NextQueue(q), v)
  }

  /** `getHuffmanEncoding` over the search as written. */
  function CodeOfBoxed(t: Tree<char>, v: char): Option<string>
  {
    match SearchBoxed([t], v)
    case None => None
    case Some(x) => x.code
  }

  /** As written, the search never finds a character above '\U{7F}'. */
  lemma {:induction false} SearchBoxedMissesNonAscii(q: seq<Tree<char>>, v: char)
    requires v as int > 0x7F
    ensures SearchBoxed(q, v) == None
    decreases ForestSize(q)
  {
    if q != [] {
      SearchBoxedMissesNonAscii(NextQueue(q), v);
    }
  }

  /** For the characters '\U{0}' to '\U{7F}' the search as written is the
      search by value. */
  lemma {:induction false} SearchBoxedAscii(q: seq<Tree<char>>, v: char)
    requires v as int <= 0x7F
    ensures SearchBoxed(q, v) == Search(q, v)
    decreases ForestSize(q)
  {
    if q != [] && !(q[0].Leaf? && q[0].sym == v) {
      SearchBoxedAscii(NextQueue(q), v);
    }
  }

  /** A character of the tree above '\U{7F}' has a code once codes are
      assigned, yet the lookup as written finds none, where the source then
      dereferences null. */
  lemma NonAsciiCodeMissed(t: Tree<char>, v: char)
    requires UniqueSyms(t) && v in Syms(t) && v as int > 0x7F
    ensures CodeOf(AssignCodes(t, ""), v).Some?
    ensures CodeOfBoxed(AssignCodes(t, ""), v) == None
  {
    CodeOfAssigned(t, v);
    SearchBoxedMissesNonAscii([AssignCodes(t, "")], v);
  }
}
