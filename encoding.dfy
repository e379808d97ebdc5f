/**
 * What `HuffmanEncodingSystem.encodeString` produces, on tree values, and a
 * decoder that reads the bits back by walking the tree from the root: the
 * inverse that makes the prefix property of the codes mean something.
 */
module Encoding {
  import opened Wrappers
  import opened CodeTree
  import opened Codes
  import opened Lookup

  /** The codes of the symbols of `text`, one after the other, as
      `getHuffmanEncoding` gives them; `None` where a symbol has no code,
      which is where the source throws a null dereference. */
  function Encoded<E(==)>(t: Tree<E>, text: seq<E>): (r: Option<string>)
    ensures r.Some? <==> forall i :: 0 <= i < |text| ==> CodeOf(t, text[i]).Some?
  {
    if text == [] then Some("")
    else match (CodeOf(t, text[0]), Encoded(t, text[1..]))
      case (Some(c), Some(rest)) => Some(c + rest)
      case _ =>
        assert forall i :: 1 <= i < |text| ==> text[i] == text[1..][i - 1];
        None
  }

  /** A text with a symbol that has no code has no encoding. */
  lemma EncodedFails<E>(t: Tree<E>, text: seq<E>, i: nat)
    requires i < |text| && CodeOf(t, text[i]).None?
    ensures Encoded(t, text) == None
  {
  }

  /** Encoding one more symbol appends its code, and fails exactly when the
      text so far or the new symbol has no code. */
  lemma {:induction false} EncodedSnoc<E>(t: Tree<E>, s: seq<E>, x: E)
    ensures Encoded(t, s + [x]).Some? <==> Encoded(t, s).Some? && CodeOf(t, x).Some?
    ensures Encoded(t, s).Some? && CodeOf(t, x).Some? ==>
      Encoded(t, s + [x]) == Some(Encoded(t, s).value + CodeOf(t, x).value)
  {
    if s == [] {
      assert s + [x] == [x] && [x][1..] == [];
      if CodeOf(t, x).Some? {
        var d := CodeOf(t, x).value;
        assert Encoded(t, [x]) == Some(d + "");
        assert d + "" == d && "" + d == d && Encoded(t, s) == Some("");
      }
    } else {
      var s' := s + [x];
      assert s'[0] == s[0] && s'[1..] == s[1..] + [x];
      EncodedSnoc(t, s[1..], x);
      if Encoded(t, s).Some? && CodeOf(t, x).Some? {
        var c, e, d := CodeOf(t, s[0]).value, Encoded(t, s[1..]).value, CodeOf(t, x).value;
        assert Encoded(t, s) == Some(c + e);
        assert Encoded(t, s') == Some(c + (e + d));
        assert c + (e + d) == (c + e) + d;
      }
    }
  }

  /** Reads one code off the front of `bits` by walking from the root of `t`
      ('1' to the left child, '0' to the right) and returns the symbol of the
      leaf reached and the bits after the code. */
  function DecodeSymbol<E>(t: Tree<E>, bits: string): (r: Option<(E, string)>)
    ensures r.Some? ==> |r.value.1| <= |bits| && (t.Node? ==> |r.value.1| < |bits|)
  {
    match t
    case Leaf(s, _, _) => Some((s, bits))
    case Node(_, l, r) =>
      if bits == [] then None
      else if bits[0] == '1' then DecodeSymbol(l, bits[1..])
      else if bits[0] == '0' then DecodeSymbol(r, bits[1..])
      else None
  }

  /** Reads codes off `bits` until none are left. */
  function Decode<E>(t: Tree<E>, bits: string): Option<seq<E>>
    decreases |bits|
  {
    if bits == [] then Some([])
    else match DecodeSymbol(t, bits)
      case None => None
      case Some((v, rest)) =>
        if |rest| < |bits| then
          match Decode(t, rest)
          case None => None
          case Some(vs) => Some([v] + vs)
        else None
  }

  /** Decoding the code of a leaf, with anything after it, gives the leaf's
      symbol and leaves exactly what came after. */
  lemma {:induction false} DecodeSymbolOfPath<E>(t: Tree<E>, k: nat, rest: string)
    requires k < |Paths(t)|
    ensures k < |Leaves(t)|
    ensures DecodeSymbol(t, Paths(t)[k] + rest) == Some((Leaves(t)[k].sym, rest))
  {
    match t
    case Leaf(_, _, _) =>
      PathsPerLeaf(t);
      assert Paths(t)[k] + rest == rest;
    case Node(_, l, r) =>
      if k < |Paths(l)| {
        DescendLeft(t, k, rest);
        DecodeSymbolOfPath(l, k, rest);
      } else {
        DescendRight(t, k, rest);
        DecodeSymbolOfPath(r, k - |Paths(l)|, rest);
      }
  }

  /** Decoding a path into the left subtree reads '1' and goes on from the left child. */
  lemma DescendLeft<E>(t: Tree<E>, k: nat, rest: string)
    requires t.Node? && k < |Paths(t.left)|
    ensures k < |Paths(t)| && k < |Leaves(t)| && k < |Leaves(t.left)| && Leaves(t)[k] == Leaves(t.left)[k]
    ensures DecodeSymbol(t, Paths(t)[k] + rest) == DecodeSymbol(t.left, Paths(t.left)[k] + rest)
  {
    PathsPerLeaf(t.left);
    PathsPerLeaf(t.right);
    PathOfNode(t, k);
    var p := Paths(t.left)[k] + rest;
    assert Paths(t)[k] + rest == ['1'] + p;
    assert (['1'] + p)[1..] == p;
  }

  /** Decoding a path into the right subtree reads '0' and goes on from the right child. */
  lemma DescendRight<E>(t: Tree<E>, k: nat, rest: string)
    requires t.Node? && |Paths(t.left)| <= k < |Paths(t)|
    ensures var k' := k - |Paths(t.left)|;
      k < |Leaves(t)| && k' < |Paths(t.right)| && k' < |Leaves(t.right)| && Leaves(t)[k] == Leaves(t.right)[k'] &&
      DecodeSymbol(t, Paths(t)[k] + rest) == DecodeSymbol(t.right, Paths(t.right)[k'] + rest)
  {
    PathsPerLeaf(t.left);
    PathsPerLeaf(t.right);
    PathOfNode(t, k);
    var p := Paths(t.right)[k - |Paths(t.left)|] + rest;
    assert Paths(t)[k] + rest == ['0'] + p;
    assert (['0'] + p)[1..] == p;
  }

  /** Code assignment keeps the paths. */
  lemma {:induction false} PathsIgnoreCodes<E>(t: Tree<E>, prefix: string)
    ensures Paths(AssignCodes(t, prefix)) == Paths(t)
  {
    match t
    case Leaf(_, _, _) =>
    case Node(_, l, r) =>
      PathsIgnoreCodes(l, prefix + "1");
      PathsIgnoreCodes(r, prefix + "0");
  }

  /** On a tree with at least two leaves, once codes are assigned, decoding
      the encoding of a text gives the text back. */
  lemma {:induction false} DecodeEncoded<E>(t: Tree<E>, text: seq<E>)
    requires t.Node? && UniqueSyms(t)
    requires forall i :: 0 <= i < |text| ==> text[i] in Syms(t)
    ensures Encoded(AssignCodes(t, ""), text).Some?
    ensures Decode(AssignCodes(t, ""), Encoded(AssignCodes(t, ""), text).value) == Some(text)
  {
    var t' := AssignCodes(t, "");
    forall i | 0 <= i < |text| ensures CodeOf(t', text[i]).Some? {
      CodeOfAssigned(t, text[i]);
    }
    if text != [] {
      var v, tail := text[0], text[1..];
      assert text == [v] + tail;
      assert forall i :: 0 <= i < |tail| ==> tail[i] == text[i + 1];
      DecodeEncoded(t, tail);
      var rest := Encoded(t', tail).value;
      DecodeFirst(t, v, rest);
      var c := CodeOf(t', v).value;
      assert Encoded(t', text) == Some(c + rest);
      assert Decode(t', c + rest) == Some([v] + tail);
    }
  }

  /** Once codes are assigned, decoding the code of a symbol of the tree, with
      anything after it, gives the symbol and leaves what came after. */
  lemma DecodeFirst<E>(t: Tree<E>, v: E, rest: string)
    requires t.Node? && UniqueSyms(t) && v in Syms(t)
    ensures CodeOf(AssignCodes(t, ""), v).Some?
    ensures DecodeSymbol(AssignCodes(t, ""), CodeOf(AssignCodes(t, ""), v).value + rest) == Some((v, rest))
  {
    var t' := AssignCodes(t, "");
    CodeOfAssigned(t, v);
    var c := CodeOf(t', v).value;
    assert CodeFor(t, v, c);
    var k :| 0 <= k < |Leaves(t)| && k < |Paths(t)| && Leaves(t)[k].sym == v && Paths(t)[k] == c;
    PathsIgnoreCodes(t, "");
    AssignCodesLabelsLeaves(t, "");
    DecodeSymbolOfPath(t', k, rest);
  }
}
