/**
 * `HuffmanTreeNode`: one node of the tree as an object whose fields are
 * updated in place. `value` is `None` where the source holds null (internal
 * nodes), and so is `huffmanEncoding` until a code is assigned.
 */
module TreeNode {
  import opened Wrappers
  import opened CodeTree

  class HuffmanTreeNode<E(==)> {
    var value: Option<E>
    var frequency: int
    var huffmanEncoding: Option<string>
    var leftChild: HuffmanTreeNode?<E>
    var rightChild: HuffmanTreeNode?<E>
    /** The node and every node below it. */
    ghost var Repr: set<object>

    /** The shapes the tree construction builds: a leaf holds a value and has
        no children; an internal node holds neither value nor code and has two
        children whose subtrees share no node with each other or with it. */
    ghost predicate Valid()
      reads this, Repr
      decreases Repr
    {
      this in Repr &&
      if leftChild == null && rightChild == null then
        value.Some?
      else
        leftChild != null && rightChild != null &&
        value.None? && huffmanEncoding.None? &&
        leftChild in Repr && rightChild in Repr &&
        leftChild.Repr <= Repr && rightChild.Repr <= Repr &&
        this !in leftChild.Repr && this !in rightChild.Repr &&
        leftChild.Repr !! rightChild.Repr &&
        leftChild.Valid() && rightChild.Valid()
    }

    /** The tree value this node is the root of. */
    ghost function Abs(): Tree<E>
      reads this, Repr
      requires Valid()
      decreases Repr
    {
      if leftChild == null then Leaf(value.value, frequency, huffmanEncoding)
      else Node(frequency, leftChild.Abs(), rightChild.Abs())
    }

    /** The general constructor: stores what it is given and no code. */
    constructor (value: Option<E>, frequency: int, leftChild: HuffmanTreeNode?<E>, rightChild: HuffmanTreeNode?<E>)
      ensures this.value == value && this.frequency == frequency && huffmanEncoding.None?
      ensures this.leftChild == leftChild && this.rightChild == rightChild
      ensures leftChild == null && rightChild == null && value.Some? ==>
        Valid() && Abs() == Leaf(value.value, frequency, None)
    {
      this.value := value;
      this.frequency := frequency;
      this.huffmanEncoding := None;
      this.leftChild := leftChild;
      this.rightChild := rightChild;
      Repr := {this};
    }

    /** The internal-node constructor: no value, no code, the given frequency
        and children; over two valid, separate subtrees the node denotes the
        internal node joining their trees. */
    constructor InternalNode(frequency: int, leftChild: HuffmanTreeNode?<E>, rightChild: HuffmanTreeNode?<E>)
      ensures value.None? && huffmanEncoding.None? && this.frequency == frequency
      ensures this.leftChild == leftChild && this.rightChild == rightChild
      ensures leftChild != null && rightChild != null ==>
        Repr == {this} + leftChild.Repr + rightChild.Repr
      ensures (leftChild != null && rightChild != null &&
               leftChild.Valid() && rightChild.Valid() && leftChild.Repr !! rightChild.Repr) ==>
        Valid() && Abs() == Node(frequency, leftChild.Abs(), rightChild.Abs())
    {
      this.value := None;
      this.huffmanEncoding := None;
      this.frequency := frequency;
      this.leftChild := leftChild;
      this.rightChild := rightChild;
      if leftChild != null && rightChild != null {
        Repr := {this} + leftChild.Repr + rightChild.Repr;
      } else {
        Repr := {this};
      }
    }

    /** The leaf constructor: a leaf for `value` with no code yet. */
    constructor LeafNode(value: E, frequency: int)
      ensures Valid() && fresh(Repr) && Repr == {this}
      ensures Abs() == Leaf(value, frequency, None)
      ensures this.value == Some(value) && this.frequency == frequency && huffmanEncoding.None?
      ensures leftChild == null && rightChild == null
    {
      this.value := Some(value);
      this.frequency := frequency;
      this.huffmanEncoding := None;
      this.leftChild := null;
      this.rightChild := null;
      Repr := {this};
    }

    method SetValue(value: Option<E>)
      modifies this
      ensures this.value == value
      ensures frequency == old(frequency) && huffmanEncoding == old(huffmanEncoding)
      ensures leftChild == old(leftChild) && rightChild == old(rightChild) && Repr == old(Repr)
    {
      this.value := value;
    }

    method SetFrequency(frequency: int)
      modifies this
      ensures this.frequency == frequency
      ensures value == old(value) && huffmanEncoding == old(huffmanEncoding)
      ensures leftChild == old(leftChild) && rightChild == old(rightChild) && Repr == old(Repr)
    {
      this.frequency := frequency;
    }

    /** Setting the code of a leaf of a valid tree keeps it valid and changes
        only the code of the leaf it denotes. */
    method SetHuffmanEncoding(huffmanEncoding: Option<string>)
      modifies this
      ensures this.huffmanEncoding == huffmanEncoding
      ensures value == old(value) && frequency == old(frequency)
      ensures leftChild == old(leftChild) && rightChild == old(rightChild) && Repr == old(Repr)
      ensures old(Valid()) && leftChild == null ==>
        Valid() && Abs() == Leaf(value.value, frequency, huffmanEncoding)
    {
      this.huffmanEncoding := huffmanEncoding;
    }

    method SetLeftChild(leftChild: HuffmanTreeNode?<E>)
      modifies this
      ensures this.leftChild == leftChild
      ensures value == old(value) && frequency == old(frequency) && huffmanEncoding == old(huffmanEncoding)
      ensures rightChild == old(rightChild) && Repr == old(Repr)
    {
      this.leftChild := leftChild;
    }

    method SetRightChild(rightChild: HuffmanTreeNode?<E>)
      modifies this
      ensures this.rightChild == rightChild
      ensures value == old(value) && frequency == old(frequency) && huffmanEncoding == old(huffmanEncoding)
      ensures leftChild == old(leftChild) && Repr == old(Repr)
    {
      this.rightChild := rightChild;
    }

    /** A node is a leaf when it has no children. */
    predicate IsLeaf()
      reads this
    {
      leftChild == null && rightChild == null
    }

    /** The priority-queue order: by frequency, and among equal frequencies 0
        only for two values that are both present and equal, 1 otherwise. */
    function CompareTo(node: HuffmanTreeNode<E>): (r: int)
      reads this, node
      ensures -1 <= r <= 1
      ensures this == node ==> r == 0
      ensures this != node && frequency != node.frequency ==>
        (r < 0 <==> frequency < node.frequency) && (r > 0 <==> frequency > node.frequency)
      ensures this != node && frequency == node.frequency ==>
        r >= 0 && (r == 0 <==> value.Some? && node.value.Some? && value.value == node.value.value)
    {
      if this == node then 0
      else if frequency < node.frequency then -1
      else if frequency > node.frequency then 1
      else if value.Some? && node.value.Some? && value.value == node.value.value then 0
      else 1
    }
  }

  /** In a valid tree, a node is a leaf exactly when it denotes a leaf, and an
      internal node denotes the join of what its children denote. */
  lemma IsLeafDenotesLeaf<E>(n: HuffmanTreeNode<E>)
    requires n.Valid()
    ensures n.IsLeaf() <==> n.Abs().Leaf?
    ensures n.IsLeaf() ==> n.Abs() == Leaf(n.value.value, n.frequency, n.huffmanEncoding)
    ensures !n.IsLeaf() ==>
      n.value.None? && n.huffmanEncoding.None? &&
      n.Abs() == Node(n.frequency, n.leftChild.Abs(), n.rightChild.Abs())
  {
  }

  /** A node's frequency is the frequency of the tree it denotes. */
  lemma FrequencyOfAbs<E>(n: HuffmanTreeNode<E>)
    requires n.Valid()
    ensures n.Abs().freq == n.frequency
  {
  }

  /** The order is not antisymmetric: two different nodes of equal frequency
      each compare greater than the other exactly when they do not hold the same
      value, as for two internal nodes, or two leaves of different values. */
  lemma CompareToNotAntisymmetric<E>(x: HuffmanTreeNode<E>, y: HuffmanTreeNode<E>)
    requires x != y && x.frequency == y.frequency
    ensures x.CompareTo(y) == 1 && y.CompareTo(x) == 1 <==>
      !(x.value.Some? && y.value.Some? && x.value.value == y.value.value)
  {
  }

  /** Among any non-empty collection of nodes, one has the least frequency. */
  lemma {:induction false} LeastFrequencyExists<E>(nodes: seq<HuffmanTreeNode<E>>)
    requires |nodes| > 0
    ensures exists i :: 0 <= i < |nodes| && forall k :: 0 <= k < |nodes| ==> nodes[i].frequency <= nodes[k].frequency
  {
    if |nodes| > 1 {
      var rest := nodes[1..];
      LeastFrequencyExists(rest);
      var i :| 0 <= i < |rest| && forall k :: 0 <= k < |rest| ==> rest[i].frequency <= rest[k].frequency;
      assert forall k :: 1 <= k < |nodes| ==> nodes[k] == rest[k - 1];
      if nodes[0].frequency <= rest[i].frequency {
        assert forall k :: 0 <= k < |nodes| ==> nodes[0].frequency <= nodes[k].frequency;
      } else {
        assert forall k :: 0 <= k < |nodes| ==> nodes[i + 1].frequency <= nodes[k].frequency;
      }
    } else {
      assert nodes == [nodes[0]];
      assert forall k :: 0 <= k < |nodes| ==> nodes[0].frequency <= nodes[k].frequency;
    }
  }
}
