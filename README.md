# Huffman coding of a text, modelled in Dafny

This project models the Huffman codec of `HuffmanCoding.java` in the
compression service. The codec has five steps:

- `frequencyMap` counts the characters of a string into a `HashMap`.
- `buildHuffmanTree` puts one leaf per entry into a `PriorityQueue`. It then
  repeatedly polls the two smallest nodes and adds back an internal node over
  them, until one node is left.
- `findHuffmanCode` searches the tree depth-first, left before right. It
  returns the path to a node with the wanted character, written as '0'
  (left) and '1' (right).
- `compress` appends the code of each input character.
- `decompress` walks a cursor down the tree, one character of the compressed
  text at a time. It writes a leaf's character on reaching the leaf and goes
  back to the root.

The compressed form is a `String` of '0' and '1' characters. There is no bit
packing, header or container.

Modules, one per step:

- `HuffmanTree` (tree.dfy): the `Node` datatype. Its two constructors are
  `Leaf(character, frequency)` and `Internal(frequency, left, right)`.
  `Symbol()` is the Java `character` field, which is '\0' for an internal node.
  The module also defines paths (`Subtree`) and the weight invariant
  (`WellWeighted`).
- `FrequencyTable` (frequency.dfy): `FrequencyMap`, and `Total`, the sum of a
  table's values.
- `TreeBuilder` (builder.dfy): the class `NodeQueue` models
  `java.util.PriorityQueue<Node>` as a `seq<Node>` field. `Poll` returns any
  node that compares lowest. `LoadEntries` is the entry loop of
  `buildHuffmanTree` and `CombineTwoSmallest` one round of its combining loop.
  `BuildHuffmanTree` runs both and polls the root.
- `Codes` (codes.dfy): `FindCode` (pure recursion), `Encode` (the meaning of
  compression) and the `Compress` loop.
- `Decoder` (decoder.dfy): `Walk`/`Decode` (the meaning of decompression) and
  the `Decompress` cursor loop.
- `RoundTrip` (roundtrip.dfy): the scenario of `main` and two quirks of the
  source.

Java `null` references (an absent node, a failed search) are `Option` values.

Three behaviours of the code shape the model:

- The compressed text is an unpacked string of '0' and '1' characters, with
  no header, pad count or container. Ties between equal frequencies are
  broken however `java.util.PriorityQueue` breaks them.
- A table with one distinct character gives a tree that is a bare leaf.
- `decompress` has no error type. It treats every character other than '0'
  as a step right, and bits left over after the last leaf write nothing.

What the model proves:

- `frequencyMap` gives the exact count of every character, and no other keys.
  The counts add up to the input's length.
- The built tree is well weighted. Its root frequency is the table's total.
  Its leaves are exactly the table's entries, one leaf per key.
- Each round of the queue loop shrinks the queue by one. It keeps the total
  frequency and the leaves, and combines two minimum nodes.
- A code found by `findHuffmanCode` leads to a node holding the character. The
  search returns null exactly when no node holds it. The codes of distinct
  characters other than '\0' are prefix-free.
- The compressed text is only '0' and '1' exactly when every input character
  is in the tree. Otherwise `StringBuilder.append(null)` writes "null".
- `decompress` writes only leaf characters, at most one per bit. Reading a
  root-to-leaf path writes that leaf's character.
- Round trip: start from the input's own frequency table and tree. If the
  input is empty, or has at least two distinct characters and no '\0', then
  decompressing the compressed text gives back the input.
- Quirk: a '\0' matches the internal root, so compression drops it.
- Quirk: with one distinct character the queue loop never runs and the tree
  is that character's leaf. The input compresses to the empty text, and
  decompression gives the empty text back instead of the input.

## Model

| member | source | states |
|---|---|---|
| `HuffmanTree.Node.Symbol` | backend/compressionfile/src/main/java/dev/sarthak/compressionfile/HuffmanCoding.java:36-44 | A node's `character` field: the leaf's own character for a leaf, '\0' for every internal node. |
| `HuffmanTree.Node.CompareTo` | backend/compressionfile/src/main/java/dev/sarthak/compressionfile/HuffmanCoding.java:17-20 | The result is -1, 0 or 1. It is negative, zero or positive exactly when this node's frequency is below, equal to or above the other's. |
| `HuffmanTree.CompareToIsTotalPreorder` | backend/compressionfile/src/main/java/dev/sarthak/compressionfile/HuffmanCoding.java:17-20 | compareTo is antisymmetric, total and transitive, so the queue has a well-defined minimum. |
| `HuffmanTree.RootWeightIsLeafWeight` | backend/compressionfile/src/main/java/dev/sarthak/compressionfile/HuffmanCoding.java:44-46 | In a tree where every internal node's frequency is the sum of its children's, the root frequency is the sum of the leaf frequencies. |
| `HuffmanTree.LeafCharsSize` | backend/compressionfile/src/main/java/dev/sarthak/compressionfile/HuffmanCoding.java:44-46 | Every tree has at least one leaf, and a tree whose root is internal has at least two. |
| `HuffmanTree.ContainsIffLeaf` | backend/compressionfile/src/main/java/dev/sarthak/compressionfile/HuffmanCoding.java:66-82 | A character other than '\0' is held by some node exactly when it is held by some leaf. |
| `HuffmanTree.SubtreeAppend` | backend/compressionfile/src/main/java/dev/sarthak/compressionfile/HuffmanCoding.java:70-82 | Following the path p + q from a node is following p, then q from where p ended. |
| `HuffmanTree.SubtreePathIsBits` | backend/compressionfile/src/main/java/dev/sarthak/compressionfile/HuffmanCoding.java:71-78 | Only a path of '0's and '1's reaches a node. |
| `FrequencyTable.TotalRemove` | backend/compressionfile/src/main/java/dev/sarthak/compressionfile/HuffmanCoding.java:35-38 | The total of a table is any one entry's value plus the total of the other entries, whichever entry is taken first. This is why the iteration order of the entries does not matter. |
| `FrequencyTable.TotalUpdate` | backend/compressionfile/src/main/java/dev/sarthak/compressionfile/HuffmanCoding.java:27 | Storing a new value under a key changes the total by the new value minus the old one (0 when the key was absent). |
| `FrequencyTable.CountsOfIsUnique` | backend/compressionfile/src/main/java/dev/sarthak/compressionfile/HuffmanCoding.java:24-30 | Two tables that both hold exactly the counts of the same string are equal. |
| `FrequencyTable.FrequencyMap` | backend/compressionfile/src/main/java/dev/sarthak/compressionfile/HuffmanCoding.java:24-30 | The keys are exactly the input's characters. Each maps to its number of occurrences, which is at least 1. The values add up to the input's length. |
| `TreeBuilder.MinExists` | backend/compressionfile/src/main/java/dev/sarthak/compressionfile/HuffmanCoding.java:41-42 | Every non-empty queue has a node that compares lowest, so `poll` has something to return. |
| `TreeBuilder.NodeQueue.Add` | backend/compressionfile/src/main/java/dev/sarthak/compressionfile/HuffmanCoding.java:37 | `add`: the queue's contents gain the node. |
| `TreeBuilder.NodeQueue.Poll` | backend/compressionfile/src/main/java/dev/sarthak/compressionfile/HuffmanCoding.java:41-51 | `poll`: null on an empty queue. Otherwise it removes and returns a node that compares no greater than any node in the queue, which may be any of several equal ones. The other nodes stay. |
| `TreeBuilder.LoadKeeps` | backend/compressionfile/src/main/java/dev/sarthak/compressionfile/HuffmanCoding.java:35-38 | Adding the leaf of one more table entry keeps the loading invariant. The queue's frequencies plus the entries not yet added total the table. The queue's leaves are exactly the keys already added, and every node is well weighted and agrees with the table. |
| `TreeBuilder.Combined` | backend/compressionfile/src/main/java/dev/sarthak/compressionfile/HuffmanCoding.java:41-48 | One loop round on the queue's contents: poll a node, poll another, add the internal node over them. The queue shrinks by exactly one and keeps its total frequency and its leaf characters. |
| `TreeBuilder.CombineKeepsInvariant` | backend/compressionfile/src/main/java/dev/sarthak/compressionfile/HuffmanCoding.java:41-48 | When the second polled node is a minimum of what is left, a round keeps every node well weighted and in agreement with the table. The new node's right child compares no greater than every node that stays. |
| `TreeBuilder.LoadEntries` | backend/compressionfile/src/main/java/dev/sarthak/compressionfile/HuffmanCoding.java:33-38 | The entry loop, with entries taken in any order, gives a new queue with one node per entry. Every node is a leaf `Leaf(k, m[k])` of an entry, and the leaves' characters are exactly the table's keys, so each key has exactly one leaf. Its frequencies total the table's values, and it is empty exactly for an empty table. |
| `TreeBuilder.CombineTwoSmallest` | backend/compressionfile/src/main/java/dev/sarthak/compressionfile/HuffmanCoding.java:40-49 | One loop round on the queue object. The first polled node is a minimum of the old queue and the second a minimum of what is left. The new contents are exactly the old ones without those two, in their order, followed by the internal node over them with the first as left child. The queue shrinks by exactly one and keeps its total frequency, its leaves and its invariant. |
| `TreeBuilder.BuildHuffmanTree` | backend/compressionfile/src/main/java/dev/sarthak/compressionfile/HuffmanCoding.java:32-52 | The result is null exactly for an empty table. Otherwise every internal node's frequency is the sum of its children's, and the root frequency and the sum of the leaves' frequencies are both the sum of the table's values. The leaves' characters are exactly the table's keys, each once, and each leaf's frequency is its key's value. |
| `Codes.FindCode` | backend/compressionfile/src/main/java/dev/sarthak/compressionfile/HuffmanCoding.java:65-85 | A result extends the `code` argument. Following the rest of the result from the node reaches a node whose character is c. The result is null exactly when no node holds c. |
| `Codes.CodeReachesLeaf` | backend/compressionfile/src/main/java/dev/sarthak/compressionfile/HuffmanCoding.java:65-85 | For a character other than '\0', the code found from the root leads to a leaf holding that character. The code is made of '0's and '1's, and it is non-empty when the root is internal. |
| `Codes.CodesArePrefixFree` | backend/compressionfile/src/main/java/dev/sarthak/compressionfile/HuffmanCoding.java:65-85 | The codes of two different characters, neither '\0', are not prefixes of one another. |
| `Codes.EncodeSnoc` | backend/compressionfile/src/main/java/dev/sarthak/compressionfile/HuffmanCoding.java:57-60 | Encoding a text extended by one character appends that character's code. |
| `Codes.EncodeIsBitsIff` | backend/compressionfile/src/main/java/dev/sarthak/compressionfile/HuffmanCoding.java:54-63 | The compressed text consists only of '0' and '1' exactly when every input character is held by the tree. A missing one makes `append(null)` write "null". |
| `Codes.Compress` | backend/compressionfile/src/main/java/dev/sarthak/compressionfile/HuffmanCoding.java:54-63 | The result is the codes of the input's characters in input order, with "null" for a character the search does not find. It is empty for the null tree of an empty input. |
| `Decoder.WalkWritesLeaves` | backend/compressionfile/src/main/java/dev/sarthak/compressionfile/HuffmanCoding.java:91-102 | Decompression writes only characters of the tree's leaves, and at most one per character read. |
| `Decoder.WalkPath` | backend/compressionfile/src/main/java/dev/sarthak/compressionfile/HuffmanCoding.java:91-101 | Reading a path from the cursor to a leaf holding c, then any rest, writes c and goes on from the root with the rest. |
| `Decoder.Decompress` | backend/compressionfile/src/main/java/dev/sarthak/compressionfile/HuffmanCoding.java:87-105 | The cursor loop writes exactly what `Decode` gives for the whole text: one leaf character each time the cursor lands on a leaf, resetting to the root. It returns the empty string for empty input. |
| `RoundTrip.EncodeAppend` | backend/compressionfile/src/main/java/dev/sarthak/compressionfile/HuffmanCoding.java:57-60 | Compressing a concatenation concatenates the compressed parts. |
| `RoundTrip.DecodeEncode` | backend/compressionfile/src/main/java/dev/sarthak/compressionfile/HuffmanCoding.java:54-105 | If the root is internal and the tree holds every character of a text, none of them '\0', then decompressing the compressed text gives the text back. |
| `RoundTrip.CompressThenDecompress` | backend/compressionfile/src/main/java/dev/sarthak/compressionfile/HuffmanCoding.java:107-116 | Take any input that is empty, or has two distinct characters and no '\0'. Counting, building, compressing and decompressing it gives a text of '0's and '1's and then the input itself. |
| `RoundTrip.HelloWorld` | backend/compressionfile/src/main/java/dev/sarthak/compressionfile/HuffmanCoding.java:108-115 | The input of `main`, "Hello, World!", compresses to '0's and '1's and decompresses to itself. |
| `RoundTrip.NulCodeIsEmpty` | backend/compressionfile/src/main/java/dev/sarthak/compressionfile/HuffmanCoding.java:66-67 | In a tree with an internal root, the code of '\0' is the empty path, because the root carries '\0'. |
| `RoundTrip.EncodeSkipsNul` | backend/compressionfile/src/main/java/dev/sarthak/compressionfile/HuffmanCoding.java:57-60 | A '\0' anywhere in the input adds nothing to the compressed text. |
| `RoundTrip.NulIsDropped` | backend/compressionfile/src/main/java/dev/sarthak/compressionfile/HuffmanCoding.java:44-67 | Compressing and decompressing a '\0' between two otherwise decodable texts gives the two texts without it. |
| `RoundTrip.SingleSymbolRoundTrip` | backend/compressionfile/src/main/java/dev/sarthak/compressionfile/HuffmanCoding.java:107-116 | For a non-empty input made of one character, counting, building, compressing and decompressing gives an empty compressed text and an empty decompressed text: the table has one key, the loop of lines 40-49 never runs, and the tree is that key's bare leaf. |
| `RoundTrip.SingleSymbolEncodesEmpty` | backend/compressionfile/src/main/java/dev/sarthak/compressionfile/HuffmanCoding.java:40-67 | When the tree is a bare leaf, as it is for a single distinct character, every input made of that character compresses to the empty text. |

## Left out

- `FileCompressionController.java` is not part of this model: HTTP routing,
  multipart uploads, file writes, download resources, MIME types and URIs.
  Its decompress endpoint rebuilds a tree from the compressed text's own
  frequencies, which is not an inverse of compression, so it is left out too.
- Conversions between bytes and strings through the platform charset. Input
  is an abstract `string`.
- A character here is a Unicode scalar value, not a UTF-16 code unit as
  `toCharArray()` gives in Java. A supplementary character such as an emoji
  is one symbol here but two surrogate code units in Java, and an unpaired
  surrogate cannot be represented at all. So for text outside the Basic
  Multilingual Plane the table, the tree and the round-trip conditions
  differ: "😀😀" has one key here (a bare leaf, compressed to the empty
  text) but two keys in Java, which round-trip.
- Codes.FindCode: does not state which matching node the search finds when
  several hold the character (the first one depth-first, left before right).
  In a tree from `BuildHuffmanTree` a character other than '\0' is held by
  exactly one leaf. When the root is internal (two or more entries), '\0' is
  held by the root; for a one-entry table the root is the entry's leaf.
- TreeBuilder.NodeQueue.Poll: does not model how `java.util.PriorityQueue`
  breaks ties between nodes of equal frequency, or the `HashMap` iteration
  order. Any minimum may be returned and entries are taken in any order, so
  no particular tree shape is fixed. Every proved property holds for every
  choice.
- Frequencies are unbounded integers rather than 32-bit `int`. For tables from
  `frequencyMap` the sums are bounded by the string's length, which Java keeps
  below 2^31, so they cannot wrap.
- `Node` is a mutable Java object whose children are set after construction.
  Here it is an immutable value. The builder links each node once and never
  changes it afterwards, so nothing else observes the difference.
- `NullPointerException` paths are excluded by preconditions. `Compress` is
  given a null tree only with empty input. `Decompress` is given a null tree
  or a bare-leaf tree only with empty input.
- Console printing in `main`.
