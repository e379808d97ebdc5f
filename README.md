# Huffman encoding scheme, modelled in Dafny

This project models the core of a small Java Huffman-coding system:

- **Tree construction.** `HuffmanTree.createTree` puts one leaf node per entry of a frequency table into a priority queue. It then repeatedly polls the two nodes of least frequency and joins them under a new internal node whose frequency is their sum. The first node polled becomes the left child. The `size` field counts every node made.
- **Code assignment.** `generateBinaryStrings` writes into each leaf the path that leads to it from the root: `'1'` for a step to a left child and `'0'` for a step to a right child.
- **Lookup.** `find` searches the tree breadth-first for the leaf holding a value. `getHuffmanEncoding` returns the code stored in that leaf.
- **Statistics.** `calculateTreeStatistics` walks the tree once. It adds the depth of every node to `depthSum` and raises `height` to the greatest depth.
- **Nodes.** `HuffmanTreeNode` has three constructors, setters, `isLeaf` and the priority-queue comparison `compareTo`.
- **Encoding system.** From `HuffmanEncodingSystem`, the project models:
  - counting the characters of a text (`calculateCharacterFrequencies`);
  - encoding the text by concatenating the codes of its characters, through a memo table (`encodeString`);
  - the length of the shortest fixed-length code for the same text (`fixedLengthSize`).

What is modelled in each form:

- **Heap objects.** The three Java classes whose objects the source updates in place are Dafny classes:
  - `TreeNode.HuffmanTreeNode`, with the source's fields and a ghost footprint `Repr` of the nodes below it;
  - `Huffman.HuffmanTree`, holding `root`, `size`, `height` and `depthSum`, but not the floating-point `averageDepth`;
  - `EncodingSystem.HuffmanEncodingSystem`, holding the text, the tree, the table and the encoding, but not the menu flag `exit`.
- **Loops.** The source's loops are methods with loop invariants:
  - the two loops of `createTree`, with the priority queue as a sequence of node objects;
  - the breadth-first loop of `find`;
  - the counting loop, the encoding loop and the fixed-length loop.
- **Recursions.** The recursive methods (`generateBinaryStrings`, `calculateTreeStatistics`) are recursive methods over the node objects.
- **What a node graph denotes.** Each valid node denotes a value of the datatype `CodeTree.Tree` (`HuffmanTreeNode.Abs`).
- **Specifications.** The methods are proved against functions on that datatype:
  - the greedy merge process (`GreedyRun`, `IsHuffmanTree`);
  - code assignment (`AssignCodes`) and root-to-leaf paths (`Paths`);
  - breadth-first search (`Search`, `CodeOf`);
  - the depths of all nodes (`Depths`);
  - the encoding of a text (`Encoded`).
- **Decoder.** A decoder (`Decode`), which the source does not have, is the partner that shows the encoding can be read back.

For a table with a single character, the lone root leaf gets the empty code, as `generateBinaryStrings(root, "")` gives it: the call stops at once at a leaf. So the model encodes a text of one distinct character to the empty string, and it says exactly that (`EncodingSystem.EncodingOfText`).

## Model

| member | source | states |
|---|---|---|
| TreeNode.HuffmanTreeNode.constructor | src/uk/ac/aber/dcs/users/thl11/huffmanencoding/HuffmanTreeNode.java:20-25 | stores the value, frequency and both children and leaves the code unset; with no children and a value, the node is a valid leaf |
| TreeNode.HuffmanTreeNode.InternalNode | src/uk/ac/aber/dcs/users/thl11/huffmanencoding/HuffmanTreeNode.java:34-40 | no value, no code, the given frequency and children; over two valid disjoint subtrees it denotes the internal node joining their trees |
| TreeNode.HuffmanTreeNode.LeafNode | src/uk/ac/aber/dcs/users/thl11/huffmanencoding/HuffmanTreeNode.java:48-51 | a fresh valid leaf holding the value and frequency, with no children and no code |
| TreeNode.HuffmanTreeNode.SetValue | src/uk/ac/aber/dcs/users/thl11/huffmanencoding/HuffmanTreeNode.java:67-69 | sets the value and changes no other field |
| TreeNode.HuffmanTreeNode.SetFrequency | src/uk/ac/aber/dcs/users/thl11/huffmanencoding/HuffmanTreeNode.java:85-87 | sets the frequency and changes no other field |
| TreeNode.HuffmanTreeNode.SetHuffmanEncoding | src/uk/ac/aber/dcs/users/thl11/huffmanencoding/HuffmanTreeNode.java:103-105 | sets the code and changes no other field; on a valid leaf the leaf stays valid and denotes the same leaf with the new code |
| TreeNode.HuffmanTreeNode.SetLeftChild | src/uk/ac/aber/dcs/users/thl11/huffmanencoding/HuffmanTreeNode.java:121-123 | sets the left child and changes no other field |
| TreeNode.HuffmanTreeNode.SetRightChild | src/uk/ac/aber/dcs/users/thl11/huffmanencoding/HuffmanTreeNode.java:139-141 | sets the right child and changes no other field |
| TreeNode.IsLeafDenotesLeaf | src/uk/ac/aber/dcs/users/thl11/huffmanencoding/HuffmanTreeNode.java:148-154 | in a valid tree, `IsLeaf` (both children null) holds exactly when the node denotes a leaf; an internal node has no value and no code and denotes the join of its children's trees |
| TreeNode.HuffmanTreeNode.CompareTo | src/uk/ac/aber/dcs/users/thl11/huffmanencoding/HuffmanTreeNode.java:162-182 | the result is -1, 0 or 1; 0 for the node itself; for other nodes of different frequency its sign is that of the frequency difference; at equal frequency it is 0 exactly when both values are present and equal, and 1 otherwise |
| TreeNode.CompareToNotAntisymmetric | src/uk/ac/aber/dcs/users/thl11/huffmanencoding/HuffmanTreeNode.java:171-181 | two distinct nodes of equal frequency each compare as greater than the other exactly when they do not hold the same value (two internal nodes, or two leaves of different values), so the order is not antisymmetric |
| TreeNode.LeastFrequencyExists | src/uk/ac/aber/dcs/users/thl11/huffmanencoding/HuffmanTree.java:49 | a non-empty queue of nodes has a node of least frequency, which is what a poll returns |
| Huffman.Poll | src/uk/ac/aber/dcs/users/thl11/huffmanencoding/HuffmanTree.java:49 | takes out of the queue a node whose frequency is at most every other node's, and leaves the rest in order |
| Huffman.AddLeafNode | src/uk/ac/aber/dcs/users/thl11/huffmanencoding/HuffmanTree.java:40-42 | one turn of the first loop: a fresh uncoded leaf for the visited key joins the queue, which stays one leaf per visited entry |
| Huffman.EnqueueLeaves | src/uk/ac/aber/dcs/users/thl11/huffmanencoding/HuffmanTree.java:39-43 | the first loop leaves in the queue exactly one fresh uncoded leaf per table entry, with that entry's frequency |
| Huffman.NoKeysLeft | src/uk/ac/aber/dcs/users/thl11/huffmanencoding/HuffmanTree.java:39-43 | once no key is left to visit, the queue holds one leaf for every entry of the table |
| Huffman.DenotesMerge | src/uk/ac/aber/dcs/users/thl11/huffmanencoding/HuffmanTree.java:49-51 | the new node over the two polled nodes is valid and denotes their join; the queue with it at the back denotes the merged queue of trees |
| Huffman.ChoiceFromPoll | src/uk/ac/aber/dcs/users/thl11/huffmanencoding/HuffmanTree.java:49 | two successive polls of least frequency are a greedy choice on the queue of trees: the first is least of all, the second least of the rest |
| Huffman.MergeStep | src/uk/ac/aber/dcs/users/thl11/huffmanencoding/HuffmanTree.java:49-51 | one turn of the merge loop shortens the queue by one, keeps the construction invariant, and extends the run by a greedy merge |
| Huffman.RunExtend | src/uk/ac/aber/dcs/users/thl11/huffmanencoding/HuffmanTree.java:47-53 | a greedy merge extends a partial run of the construction |
| Huffman.HuffmanTree.MergeLowest | src/uk/ac/aber/dcs/users/thl11/huffmanencoding/HuffmanTree.java:47-55 | the merge loop ends with one valid node whose tree is the end of a greedy run for the table, and adds one to `size` for each of the table's entries but one |
| Huffman.HuffmanTree.BuildNodes | src/uk/ac/aber/dcs/users/thl11/huffmanencoding/HuffmanTree.java:39-55 | both loops together: the node left denotes a Huffman tree for the table, and `size` is its number of nodes |
| Huffman.HuffmanTree.CreateTree | src/uk/ac/aber/dcs/users/thl11/huffmanencoding/HuffmanTree.java:33-60 | the root is set and returned; it denotes a Huffman tree for the table with the codes assigned from the empty code; `size` counts its nodes; the statistics are untouched |
| Huffman.HuffmanTree.GenerateBinaryStrings | src/uk/ac/aber/dcs/users/thl11/huffmanencoding/HuffmanTree.java:67-69 | the tree below the node becomes its code assignment from the empty code, with the same nodes |
| Huffman.HuffmanTree.GenerateBinaryStringsFrom | src/uk/ac/aber/dcs/users/thl11/huffmanencoding/HuffmanTree.java:77-88 | the tree below the node becomes its code assignment from `code`, and the node keeps its footprint and validity |
| Huffman.HuffmanTree.Find | src/uk/ac/aber/dcs/users/thl11/huffmanencoding/HuffmanTree.java:106-124 | the breadth-first loop returns null exactly when the search of the tree finds nothing; otherwise it returns a leaf node of the tree, and that leaf denotes what the search finds |
| Huffman.QueueNext | src/uk/ac/aber/dcs/users/thl11/huffmanencoding/HuffmanTree.java:112-121 | one turn of the search loop: after the front goes and its children, if it has any, join at the back, the queue of nodes denotes the next queue of trees |
| Huffman.HuffmanTree.GetHuffmanEncoding | src/uk/ac/aber/dcs/users/thl11/huffmanencoding/HuffmanTree.java:96-98 | a code exists exactly for the keys of the table, and it is the root-to-leaf path of that key's leaf |
| Huffman.HuffmanTree.CalculateTreeStatistics | src/uk/ac/aber/dcs/users/thl11/huffmanencoding/HuffmanTree.java:132-143 | the two counters end as the pre-order traversal `Measured` of the node's tree leaves them, starting from their old values |
| Huffman.MeasuredIsStatistics | src/uk/ac/aber/dcs/users/thl11/huffmanencoding/HuffmanTree.java:132-143 | that traversal adds the depths of all nodes, leaves and internal ones, to the sum, and raises the height to the greatest of them |
| Huffman.HuffmanTree.MeasureFromRoot | src/uk/ac/aber/dcs/users/thl11/huffmanencoding/HuffmanTree.java:23 | from zero, measuring the built tree from the root at depth 0 makes `height` its height and `depthSum` the sum of the depths of all its nodes |
| Huffman.HuffmanTree.constructor | src/uk/ac/aber/dcs/users/thl11/huffmanencoding/HuffmanTree.java:21-25 | for a non-empty table, the tree is built as a Huffman tree for it and measured; it has 2k - 1 nodes for k entries, and there is one depth per node |
| Huffman.HuffmanTree.GetSize | src/uk/ac/aber/dcs/users/thl11/huffmanencoding/HuffmanTree.java:150-152 | the size is twice the number of table entries, less one |
| Huffman.HuffmanTree.GetHeight | src/uk/ac/aber/dcs/users/thl11/huffmanencoding/HuffmanTree.java:159-161 | the height is the length of the longest code: no code is longer and some code is that long |
| CodeTree.NodeCountOfLeaves | src/uk/ac/aber/dcs/users/thl11/huffmanencoding/HuffmanTree.java:45-53 | a tree whose internal nodes have two children has one node fewer than twice its leaves |
| CodeTree.LeafCountIsSymCount | src/uk/ac/aber/dcs/users/thl11/huffmanencoding/HuffmanTree.java:39-43 | with unique symbols there is exactly one leaf per symbol |
| CodeTree.Without | src/uk/ac/aber/dcs/users/thl11/huffmanencoding/HuffmanTree.java:49 | polling index `i` leaves the other elements in their order, one fewer |
| CodeTree.WithoutMeasures | src/uk/ac/aber/dcs/users/thl11/huffmanencoding/HuffmanTree.java:49 | polling a tree takes its frequency, its nodes and its symbols out of those of the queue |
| CodeTree.Merge | src/uk/ac/aber/dcs/users/thl11/huffmanencoding/HuffmanTree.java:49-51 | the two polled trees leave the queue, the others stay in order, and a new internal node joins them at the back, the first polled as its left child, with the sum of their frequencies |
| CodeTree.MergeMeasures | src/uk/ac/aber/dcs/users/thl11/huffmanencoding/HuffmanTree.java:49-52 | a merge keeps the total frequency and the symbols of the queue and adds exactly one node |
| CodeTree.MergeKeeps | src/uk/ac/aber/dcs/users/thl11/huffmanencoding/HuffmanTree.java:49-51 | the trees a merge does not join stay in the queue in their order, and the two joined trees are not among them |
| CodeTree.MergeDisjoint | src/uk/ac/aber/dcs/users/thl11/huffmanencoding/HuffmanTree.java:49-51 | a merge keeps the trees of the queue on pairwise disjoint symbol sets |
| CodeTree.MergePreserves | src/uk/ac/aber/dcs/users/thl11/huffmanencoding/HuffmanTree.java:47-53 | a merge keeps the construction invariant: every internal frequency is the sum of its children's, leaves are uncoded table entries with their frequency, symbols are unique, and the queue's symbols, total frequency and node count match the table |
| CodeTree.LeafForestIsForest | src/uk/ac/aber/dcs/users/thl11/huffmanencoding/HuffmanTree.java:39-45 | the queue of one leaf per entry satisfies the construction invariant |
| CodeTree.GreedyRunForest | src/uk/ac/aber/dcs/users/thl11/huffmanencoding/HuffmanTree.java:39-55 | every queue along a greedy run satisfies the construction invariant |
| CodeTree.HuffmanTreeShape | src/uk/ac/aber/dcs/users/thl11/huffmanencoding/HuffmanTree.java:39-55 | a Huffman tree for a table has one leaf per entry with that entry's frequency, internal frequencies that are the sums of their children's, a root frequency that is the table's total, and 2k - 1 nodes |
| Codes.AssignCodes | src/uk/ac/aber/dcs/users/thl11/huffmanencoding/HuffmanTree.java:77-88 | code assignment keeps the root a leaf or an internal node as it was, with its frequency; a leaf keeps its symbol and gets the code built so far |
| Codes.AssignCodesLabelsLeaves | src/uk/ac/aber/dcs/users/thl11/huffmanencoding/HuffmanTree.java:77-88 | code assignment gives every leaf the prefix followed by its root-to-leaf path ('1' left, '0' right), keeping its symbol and frequency; a lone root leaf gets the empty code |
| Codes.AssignCodesKeepsShape | src/uk/ac/aber/dcs/users/thl11/huffmanencoding/HuffmanTree.java:77-88 | code assignment changes no node count, symbol, frequency, uniqueness of symbols or frequency sum |
| Codes.PathsLeadToLeaves | src/uk/ac/aber/dcs/users/thl11/huffmanencoding/HuffmanTree.java:77-88 | following each path from the root reaches its own leaf |
| Codes.PathLengthIsDepth | src/uk/ac/aber/dcs/users/thl11/huffmanencoding/HuffmanTree.java:77-88 | the length of a leaf's code is the leaf's depth |
| Codes.PathsPrefixFree | src/uk/ac/aber/dcs/users/thl11/huffmanencoding/HuffmanTree.java:77-88 | below a root with children, no code is empty and no code is a prefix of another |
| Codes.CodeForLeadsToLeaf | src/uk/ac/aber/dcs/users/thl11/huffmanencoding/HuffmanTree.java:77-88 | following a code of a symbol reaches the leaf of that symbol, and below a root with children that code is non-empty |
| Codes.CodeForUnique | src/uk/ac/aber/dcs/users/thl11/huffmanencoding/HuffmanTree.java:77-88 | with unique symbols a symbol has at most one code |
| Lookup.NextQueue | src/uk/ac/aber/dcs/users/thl11/huffmanencoding/HuffmanTree.java:112-121 | one turn of the search loop leaves fewer nodes to visit |
| Lookup.Search | src/uk/ac/aber/dcs/users/thl11/huffmanencoding/HuffmanTree.java:106-124 | a breadth-first search only finds a leaf holding the value sought |
| Lookup.SearchFinds | src/uk/ac/aber/dcs/users/thl11/huffmanencoding/HuffmanTree.java:106-124 | the search finds something exactly when the value labels a leaf of the queue, and what it finds is such a leaf |
| Lookup.FindsTheLeaf | src/uk/ac/aber/dcs/users/thl11/huffmanencoding/HuffmanTree.java:106-124 | in a tree with unique symbols, searching for a leaf's symbol finds that very leaf |
| Lookup.CodeOfAssigned | src/uk/ac/aber/dcs/users/thl11/huffmanencoding/HuffmanTree.java:96-98 | after code assignment, a value has a code exactly when it is a symbol of the tree, and that code is its root-to-leaf path |
| Lookup.SearchBoxed | src/uk/ac/aber/dcs/users/thl11/huffmanencoding/HuffmanTree.java:106-124 | the search as written, comparing boxed characters by identity: it only finds a leaf holding the character sought |
| Lookup.SearchBoxedMissesNonAscii | src/uk/ac/aber/dcs/users/thl11/huffmanencoding/HuffmanTree.java:113 | the search as written finds nothing for a character above `'\u007f'` |
| Lookup.SearchBoxedAscii | src/uk/ac/aber/dcs/users/thl11/huffmanencoding/HuffmanTree.java:113 | for a character up to `'\u007f'`, the search as written finds what the search by value finds |
| Lookup.NonAsciiCodeMissed | src/uk/ac/aber/dcs/users/thl11/huffmanencoding/HuffmanTree.java:96-98 | a symbol above `'\u007f'` of a coded tree has a code, but the lookup as written does not find it |
| Statistics.LeafDepthsInDepths | src/uk/ac/aber/dcs/users/thl11/huffmanencoding/HuffmanTree.java:132-143 | the depths of the leaves, as code lengths give them, are among the depths the traversal records, no depth more often |
| Statistics.DepthsOfLeavesCount | src/uk/ac/aber/dcs/users/thl11/huffmanencoding/HuffmanTree.java:132-143 | the traversal records one depth fewer than twice the number of leaves |
| Statistics.DepthsPerNode | src/uk/ac/aber/dcs/users/thl11/huffmanencoding/HuffmanTree.java:132-143 | the traversal records one depth per node |
| Statistics.HighestIsMax | src/uk/ac/aber/dcs/users/thl11/huffmanencoding/HuffmanTree.java:133-136 | the running maximum is at least its start and every depth seen, and is one of them |
| Statistics.HighestDepth | src/uk/ac/aber/dcs/users/thl11/huffmanencoding/HuffmanTree.java:132-143 | starting from `h`, the running maximum over the depths below a root at depth `d` is the larger of `h` and `d` plus the tree's height |
| Statistics.HeightIsLongestPath | src/uk/ac/aber/dcs/users/thl11/huffmanencoding/HuffmanTree.java:132-143 | the tree's height is the length of its longest root-to-leaf path |
| Statistics.DepthsIgnoreCodes | src/uk/ac/aber/dcs/users/thl11/huffmanencoding/HuffmanTree.java:22-23 | measuring after code assignment gives the same depths and height as before it |
| Statistics.SingleNodeStatistics | src/uk/ac/aber/dcs/users/thl11/huffmanencoding/HuffmanTree.java:132-143 | a single node has height 0 and depth sum 0 |
| Encoding.Encoded | src/uk/ac/aber/dcs/users/thl11/huffmanencoding/HuffmanEncodingSystem.java:166-182 | a text has an encoding exactly when every one of its characters has a code |
| Encoding.EncodedFails | src/uk/ac/aber/dcs/users/thl11/huffmanencoding/HuffmanEncodingSystem.java:172-176 | a text with a character that has no code has no encoding, where the source dereferences null |
| Encoding.EncodedSnoc | src/uk/ac/aber/dcs/users/thl11/huffmanencoding/HuffmanEncodingSystem.java:172-180 | encoding one more character appends its code, and fails exactly when the text so far or the new character has no code |
| Encoding.DecodeSymbolOfPath | src/uk/ac/aber/dcs/users/thl11/huffmanencoding/HuffmanTree.java:77-88 | reading a leaf's path from the root, with anything after it, reaches that leaf's symbol and leaves exactly what came after |
| Encoding.PathsIgnoreCodes | src/uk/ac/aber/dcs/users/thl11/huffmanencoding/HuffmanTree.java:77-88 | code assignment keeps every root-to-leaf path |
| Encoding.DecodeEncoded | src/uk/ac/aber/dcs/users/thl11/huffmanencoding/HuffmanEncodingSystem.java:166-182 | on a tree with at least two leaves and unique symbols, a text of its symbols has an encoding, and decoding it gives the text back |
| EncodingSystem.CharacterCounts | src/uk/ac/aber/dcs/users/thl11/huffmanencoding/HuffmanEncodingSystem.java:147-155 | the table after reading a text is empty exactly when the text is |
| EncodingSystem.CharacterCountsCount | src/uk/ac/aber/dcs/users/thl11/huffmanencoding/HuffmanEncodingSystem.java:147-155 | the table holds exactly the characters of the text, each with its number of occurrences, and the counts add up to the text's length |
| EncodingSystem.HuffmanEncodingSystem.CalculateCharacterFrequencies | src/uk/ac/aber/dcs/users/thl11/huffmanencoding/HuffmanEncodingSystem.java:142-157 | the counting loop returns the table of the text's character counts |
| EncodingSystem.HuffmanEncodingSystem.EncodeString | src/uk/ac/aber/dcs/users/thl11/huffmanencoding/HuffmanEncodingSystem.java:166-182 | the loop returns the codes of the text's characters in order, as the tree gives them; the memo table only ever holds each character's code from the tree |
| EncodingSystem.BitsPerCharacterIsLeast | src/uk/ac/aber/dcs/users/thl11/huffmanencoding/HuffmanEncodingSystem.java:190-194 | the number of bits is the least b with 2^b at least the number of distinct characters |
| EncodingSystem.HuffmanEncodingSystem.FixedLengthSize | src/uk/ac/aber/dcs/users/thl11/huffmanencoding/HuffmanEncodingSystem.java:189-197 | the loop finds that least number of bits, and the result is it times the text's length |
| EncodingSystem.HuffmanEncodingSystem.constructor | src/uk/ac/aber/dcs/users/thl11/huffmanencoding/HuffmanEncodingSystem.java:11-15 | a new system has no tree and no encoding, the empty text and the empty table (the source holds null text and table) |
| EncodingSystem.HuffmanEncodingSystem.Process | src/uk/ac/aber/dcs/users/thl11/huffmanencoding/HuffmanEncodingSystem.java:26-29 | one pass of the main loop for a non-empty text: the table is the text's counts, the tree is a Huffman tree for it, the encoding exists, is empty for one distinct character, and decodes back to the text otherwise |
| EncodingSystem.EncodingOfText | src/uk/ac/aber/dcs/users/thl11/huffmanencoding/HuffmanEncodingSystem.java:26-29 | over the codes of a Huffman tree for a text's counts, the text has an encoding, which is empty for one distinct character and decodes back to the text otherwise |
| EncodingSystem.NonAsciiTextMissed | src/uk/ac/aber/dcs/users/thl11/huffmanencoding/HuffmanEncodingSystem.java:166-182 | whatever Huffman tree the counts of the text "éa" are given, both characters get codes; the lookup as written finds the code of `'a'` but none for `'é'` |
| Frequencies.MapSumIncrement | src/uk/ac/aber/dcs/users/thl11/huffmanencoding/HuffmanEncodingSystem.java:150-154 | counting one more occurrence of a character, new or already present, adds one to the total of the table |

## Left out

- Reading the text from the user or from a file (`run`'s menu loop, `handleUserInput`, `readFile`) is not modelled: it is I/O. `Process` takes the text as a parameter.
- Printing (`printStatistics` and the progress messages in `createTree`, `calculateCharacterFrequencies` and `encodeString`) is not modelled: it is output only.
- `averageDepth`, `getAverageDepth` and the compression ratio are not modelled: they are floating point. The model keeps the integers `depthSum` and `size` they are computed from.
- Poll: only the comparator's frequency part fixes which node is polled. Among nodes of equal frequency, `Poll` takes some node of least frequency. The Java `PriorityQueue` heap order is not modelled, because the comparator is not a consistent order at equal frequencies (`CompareToNotAntisymmetric`).
- EnqueueLeaves: visits the table's entries in an order left open, as the Java `HashMap` iteration order is.
- Huffman.HuffmanTree.Find: compares values by value equality, the evidently intended behaviour. The source's `==` on boxed characters is modelled separately as `Lookup.SearchBoxed` (see Findings).
- Huffman.HuffmanTree.Find: takes no null value. With two or more entries the root is an internal node with a null value, so a null query would return the root in the source; with one entry the root is a leaf with a value and a null query returns null.
- Huffman.HuffmanTree.constructor: requires a non-empty table. With an empty one the source's `generateBinaryStrings(null)` throws.
- Huffman.HuffmanTree.GetHuffmanEncoding: returns `None` where the source throws a null dereference because `find` returned null.
- EncodingSystem.HuffmanEncodingSystem.EncodeString: returns `None` for the same exception.
- The case where the source would append the text "null" for a leaf without a code is not modelled. It cannot arise, because every leaf of a built tree has a code.
- EncodingSystem.HuffmanEncodingSystem.constructor: starts with the empty text and the empty table where the source holds null. So `FixedLengthSize` on a fresh system returns 0 where the source would throw a null dereference; `Process` always sets both before use.
- Java `charAt` yields UTF-16 code units, while a Dafny `char` is a Unicode scalar value. A character outside the Basic Multilingual Plane is two symbols (its surrogates) in the source and one in the model.
- Java `int` overflow of frequencies, `size` and the depth counters is not modelled; integers are unbounded.
- `Math.pow(2, bitsPerCharacter)` is modelled as the exact integer power `Pow2`.
- Leaf values and all frequencies are never null in the trees the source builds, so the model stores no null frequency; the null value of an internal node is `None`.
- The getters of `HuffmanTreeNode` (`getValue`, `getFrequency`, `getHuffmanEncoding`, `getLeftChild`, `getRightChild`) are read as direct field accesses. Each one only returns its field.
- Huffman.HuffmanTree.CalculateTreeStatistics: reads both children before recursing and takes a ghost parameter, the tree the node denotes. Nothing changes the children during the walk, so this is the same as the source's calls to `getLeftChild` and `getRightChild`.
- `Record`, `MeasureFromRoot`, `BuildNodes`, `MergeLowest`, `MergeStep`, `AddLeafNode` and `EnqueueLeaves` are parts of the source's methods split out as methods of their own, so that each proof stays small.

## Findings

| source | as written | input that shows it | evidently intended | confidence | as-written member | corrected member |
|---|---|---|---|---|---|---|
| src/uk/ac/aber/dcs/users/thl11/huffmanencoding/HuffmanTree.java:113 | `find` compares `n.getValue() == value`, which for `Character` compares boxes by identity. The standard library shares the boxes only for `'\u0000'` to `'\u007f'` and makes a new box for any other character, so such a character is never found; `getHuffmanEncoding` then dereferences null and `encodeString` (HuffmanEncodingSystem.java:172-176) fails | the text "éa": in any Huffman tree for its counts `'é'` is a leaf with a code, but the search as written passes it by | compare values with `equals`, so that every character of the table is found | not executed | Lookup.SearchBoxed, Lookup.CodeOfBoxed, Lookup.NonAsciiCodeMissed, EncodingSystem.NonAsciiTextMissed | Lookup.Search, Lookup.CodeOf, Lookup.SearchFinds, Lookup.CodeOfAssigned |
