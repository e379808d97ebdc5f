/**
 * `HuffmanEncodingSystem`: counts the characters of a text, builds the tree
 * for the counts, encodes the text with the tree's codes and compares the
 * length with that of a fixed-length code. Reading the text from the user
 * or a file and printing are not modelled; the text is a parameter.
 */
module EncodingSystem {
  import opened Wrappers
  import opened Frequencies
  import opened CodeTree
  import opened Codes
  import opened Lookup
  import opened Encoding
  import opened Huffman

  /** 2 to the power `b`. */
  function Pow2(b: nat): (r: nat)
    ensures r >= 1
  {
    if b == 0 then 1 else 2 * Pow2(b - 1)
  }

  lemma {:induction false} Pow2Monotone(a: nat, b: nat)
    requires a <= b
    ensures Pow2(a) <= Pow2(b)
    decreases b
  {
    if a < b {
      Pow2Monotone(a, b - 1);
    }
  }

  /** The number of bits of a fixed-length code for `n` distinct characters,
      by halving: no bits for at most one character. */
  function BitsPerCharacter(n: int): nat
    decreases n
  {
    if n <= 1 then 0 else 1 + BitsPerCharacter((n + 1) / 2)
  }

  /** `BitsPerCharacter(n)` is the least number of bits that gives `n` distinct codes. */
  lemma {:induction false} BitsPerCharacterIsLeast(n: int)
    ensures Pow2(BitsPerCharacter(n)) >= n
    ensures BitsPerCharacter(n) > 0 ==> Pow2(BitsPerCharacter(n) - 1) < n
    decreases n
  {
    if n > 1 {
      BitsPerCharacterIsLeast((n + 1) / 2);
    }
  }

  /** The characters of a text, each with the number of times it occurs. */
  ghost predicate CountsOf(text: string, m: map<char, int>)
  {
    (forall c :: c in m <==> c in text) &&
    (forall c :: c in m ==> m[c] == multiset(text)[c])
  }

  /** The count of `c` one higher, starting from 1 for a character not counted yet. */
  function Bump(m: map<char, int>, c: char): map<char, int>
  {
    if c in m then m[c := m[c] + 1] else m[c := 1]
  }

  /** The table the counting loop has built after reading `text`, one
      character at a time from the front. */
  function CharacterCounts(text: string): (r: map<char, int>)
    ensures |r| == 0 <==> text == []
  {
    if text == [] then map[] else Bump(CharacterCounts(text[..|text| - 1]), text[|text| - 1])
  }

  /** The table holds exactly the characters of the text, each with its
      number of occurrences, and the counts add up to the text's length. */
  lemma {:induction false} CharacterCountsCount(text: string)
    ensures CountsOf(text, CharacterCounts(text))
    ensures MapSum(CharacterCounts(text)) == |text|
  {
    if text != [] {
      var s, c := text[..|text| - 1], text[|text| - 1];
      assert text == s + [c];
      var m := CharacterCounts(s);
      assert CharacterCounts(text) == Bump(m, c) == m[c := if c in m then m[c] + 1 else 1];
      CharacterCountsCount(s);
      BumpCounts(s, c, m);
      MapSumIncrement(m, c);
    }
  }

  /** Counting one more character keeps the table the counts of the text. */
  lemma BumpCounts(s: string, c: char, m: map<char, int>)
    requires CountsOf(s, m)
    ensures CountsOf(s + [c], Bump(m, c))
  {
    assert multiset(s + [c]) == multiset(s) + multiset{c};
    forall x ensures x in Bump(m, c) <==> x in s + [c] {
      assert x in s + [c] <==> x in s || x == c;
    }
  }

  class HuffmanEncodingSystem {
    var text: string
    var tree: HuffmanTree?<char>
    var characterFrequencies: map<char, int>
    /** `None` where the source's encoding throws a null dereference. */
    var huffmanEncoding: Option<string>

    constructor ()
      ensures text == [] && tree == null && characterFrequencies == map[] && huffmanEncoding == None
    {
      text := [];
      tree := null;
      characterFrequencies := map[];
      huffmanEncoding := None;
    }

    /** One pass of the source's main loop once a text has been read: count,
        build the tree, encode. Every character gets a code, and as soon as
        the text has two distinct characters the encoding decodes back to it;
        a text of one distinct character encodes to nothing. */
    method Process(text: string)
      requires |text| > 0
      modifies this
      ensures this.text == text && characterFrequencies == CharacterCounts(text)
      ensures tree != null && tree.Valid() && fresh(tree.Repr) && tree.freqs == characterFrequencies
      ensures huffmanEncoding == Encoded(AssignCodes(tree.built, ""), text) && huffmanEncoding.Some?
      ensures |characterFrequencies| == 1 ==> huffmanEncoding == Some("")
      ensures |characterFrequencies| > 1 ==> Decode(AssignCodes(tree.built, ""), huffmanEncoding.value) == Some(text)
    {
      var m := CalculateCharacterFrequencies(text);
      var t := new HuffmanTree(m);
      var e := EncodeString(text, t);
      assert e == Encoded(AssignCodes(t.built, ""), text);
      EncodingOfText(t.built, m, text);
      Record(text, m, t, e);
    }

    /** Stores what one pass has computed; the tree, which shares no object
        with the system, stays as it was. */
    method Record(text: string, m: map<char, int>, t: HuffmanTree<char>, e: Option<string>)
      requires t.Valid() && this !in t.Repr
      modifies this
      ensures this.text == text && characterFrequencies == m && tree == t && huffmanEncoding == e
      ensures t.Valid() && t.built == old(t.built) && t.freqs == old(t.freqs) && t.Repr == old(t.Repr)
    {
      this.text, characterFrequencies, tree, huffmanEncoding := text, m, t, e;
    }

    /** The number of occurrences of each character of `text`. */
    method CalculateCharacterFrequencies(text: string) returns (frequencies: map<char, int>)
      ensures frequencies == CharacterCounts(text)
    {
      frequencies := map[];
      for i := 0 to |text|
        invariant frequencies == CharacterCounts(text[..i])
      {
        var c := text[i];
        assert text[..i + 1][..i] == text[..i];
        if c in frequencies {
          frequencies := frequencies[c := frequencies[c] + 1];
        } else {
          frequencies := frequencies[c := 1];
        }
      }
      assert text[..|text|] == text;
    }

    /** The codes of the characters of `text` one after the other, each
        asked of the tree once and then remembered. */
    method EncodeString(text: string, tree: HuffmanTree<char>) returns (r: Option<string>)
      requires tree.Built()
      ensures r == Encoded(tree.root.Abs(), text)
    {
      ghost var t := tree.root.Abs();
      var binaryCode := "";
      var codes: map<char, string> := map[];
      for i := 0 to |text|
        invariant Encoded(t, text[..i]) == Some(binaryCode)
        invariant forall c :: c in codes ==> CodeOf(t, c) == Some(codes[c])
      {
        var c := text[i];
        var code;
        if c in codes {
          code := codes[c];
        } else {
          var found := tree.GetHuffmanEncoding(c);
          if found.None? {
            EncodedFails(t, text, i);
            return None;
          }
          code := found.value;
          codes := codes[c := code];
        }
        assert text[..i + 1] == text[..i] + [c];
        EncodedSnoc(t, text[..i], c);
        binaryCode := binaryCode + code;
      }
      assert text[..|text|] == text;
      return Some(binaryCode);
    }

    /** The length in bits of `text` under the shortest fixed-length code for
        its distinct characters. */
    method FixedLengthSize() returns (r: int)
      ensures r == BitsPerCharacter(|characterFrequencies|) * |text|
    {
      ghost var n := |characterFrequencies|;
      BitsPerCharacterIsLeast(n);
      var bitsPerCharacter := 0;
      while Pow2(bitsPerCharacter) < |characterFrequencies|
        invariant bitsPerCharacter <= BitsPerCharacter(n)
        decreases BitsPerCharacter(n) - bitsPerCharacter
      {
        assert bitsPerCharacter < BitsPerCharacter(n);
        bitsPerCharacter := bitsPerCharacter + 1;
      }
      if bitsPerCharacter < BitsPerCharacter(n) {
        Pow2Monotone(bitsPerCharacter, BitsPerCharacter(n) - 1);
      }
      r := bitsPerCharacter * |text|;
    }
  }

  /** Over the codes of a Huffman tree for the character counts of a
      non-empty text, the text has an encoding; it is empty when there is
      one distinct character and decodes back to the text otherwise. */
  lemma EncodingOfText(t: Tree<char>, m: map<char, int>, text: string)
    requires IsHuffmanTree(t, m) && m == CharacterCounts(text)
    ensures Encoded(AssignCodes(t, ""), text).Some?
    ensures |m| == 1 ==> Encoded(AssignCodes(t, ""), text) == Some("")
    ensures |m| > 1 ==> Decode(AssignCodes(t, ""), Encoded(AssignCodes(t, ""), text).value) == Some(text)
  {
    HuffmanTreeShape(t, m);
    CharacterCountsCount(text);
    forall i | 0 <= i < |text| ensures text[i] in Syms(t) {
      assert text[i] in m;
    }
    if |m| == 1 {
      assert t.Leaf?;
      var t' := AssignCodes(t, "");
      forall i | 0 <= i < |text| ensures text[i] == t.sym {
        assert text[i] in Syms(t);
      }
      EncodedOfOneLeaf(t', text);
    } else {
      DecodeEncoded(t, text);
    }
  }

  /** Over a single leaf with the empty code, a text of its symbol encodes to nothing. */
  lemma {:induction false} EncodedOfOneLeaf(t: Tree<char>, text: string)
    requires t.Leaf? && t.code == Some("")
    requires forall i :: 0 <= i < |text| ==> text[i] == t.sym
    ensures Encoded(t, text) == Some("")
  {
    if text != [] {
      assert Search([t], text[0]) == Some(t);
      assert CodeOf(t, text[0]) == Some("");
      assert forall i :: 0 <= i < |text[1..]| ==> text[1..][i] == text[i + 1];
      EncodedOfOneLeaf(t, text[1..]);
      assert "" + "" == "";
    }
  }

  /** Whatever Huffman tree the text "\U{E9}a" is given, both its characters
      get codes, but the lookup as written finds only the code of 'a': for
      '\U{E9}' the source then dereferences null. */
  lemma NonAsciiTextMissed(t: Tree<char>)
    requires IsHuffmanTree(t, CharacterCounts("\U{E9}a"))
    ensures CodeOf(AssignCodes(t, ""), '\U{E9}').Some?
    ensures CodeOfBoxed(AssignCodes(t, ""), '\U{E9}') == None
    ensures CodeOf(AssignCodes(t, ""), 'a').Some?
    ensures CodeOfBoxed(AssignCodes(t, ""), 'a') == CodeOf(AssignCodes(t, ""), 'a')
  {
    var m := CharacterCounts("\U{E9}a");
    assert "\U{E9}a"[..1] == "\U{E9}" && "\U{E9}"[..0] == [];
    assert m.Keys == {'\U{E9}', 'a'};
    HuffmanTreeShape(t, m);
    NonAsciiCodeMissed(t, '\U{E9}');
    CodeOfAssigned(t, 'a');
    SearchBoxedAscii([AssignCodes(t, "")], 'a');
  }
}
