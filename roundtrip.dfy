// The round trip that `main` of HuffmanCoding.java runs: count, build,
// compress, decompress. It gives the input back when the input is empty, or
// has at least two distinct characters and no '\0'. The lemmas at the end
// show what happens otherwise.

module RoundTrip {
  import opened HuffmanTree
  import opened FrequencyTable
  import opened TreeBuilder
  import opened Codes
  import opened Decoder

  /** Encoding a concatenation concatenates the encodings. */
  lemma {:induction false} EncodeAppend(a: string, b: string, root: Node)
    ensures Encode(a + b, root) == Encode(a, root) + Encode(b, root)
  {
    if a == [] {
      assert a + b == b;
    } else {
      assert (a + b)[0] == a[0];
      assert (a + b)[1..] == a[1..] + b;
      EncodeAppend(a[1..], b, root);
    }
  }

  /**
   * Decoding the encoding gives the text back, for a tree whose root is
   * internal and that holds every character of the text, none of them '\0'.
   */
  lemma {:induction false} DecodeEncode(s: string, root: Node)
    requires root.Internal?
    requires forall i :: 0 <= i < |s| ==> s[i] != Nul && Contains(root, s[i])
    ensures Decode(Encode(s, root), root) == s
  {
    if s != [] {
      var p := FindCode(s[0], root, "").value;
      var rest := Encode(s[1..], root);
      assert Encode(s, root) == p + rest;
      CodeReachesLeaf(s[0], root, p);
      WalkPath(root, root, p, rest, s[0]);
      forall i | 0 <= i < |s[1..]|
        ensures s[1..][i] != Nul && Contains(root, s[1..][i])
      {
        assert s[1..][i] == s[i + 1];
      }
      DecodeEncode(s[1..], root);
      assert s == [s[0]] + s[1..];
    }
  }

  /**
   * `main` for any input: a tree built from the input's own frequency table
   * compresses it to a string of '0's and '1's that decompresses to the
   * input.
   */
  method CompressThenDecompress(input: string) returns (compressed: string, decompressed: string)
    requires forall i :: 0 <= i < |input| ==> input[i] != Nul
    requires input == [] || exists i, j :: 0 <= i < |input| && 0 <= j < |input| && input[i] != input[j]
    ensures IsBits(compressed)
    ensures decompressed == input
  {
    var frequencyMap := FrequencyMap(input);
    var root := BuildHuffmanTree(frequencyMap);
    compressed := Compress(input, root);
    if input != [] {
      assert input[0] in frequencyMap;
      var tree := root.value;
      var i, j :| 0 <= i < |input| && 0 <= j < |input| && input[i] != input[j];
      assert input[i] in multiset(frequencyMap.Keys) && input[j] in multiset(frequencyMap.Keys);
      assert tree.Internal?;
      forall k | 0 <= k < |input|
        ensures Contains(tree, input[k])
      {
        assert input[k] in multiset(frequencyMap.Keys);
        ContainsIffLeaf(tree, input[k]);
      }
      EncodeIsBitsIff(input, tree);
      DecodeEncode(input, tree);
    }
    decompressed := Decompress(compressed, root);
  }

  /** The input of `main` itself meets the round trip's conditions. */
  method HelloWorld() returns (compressed: string, decompressed: string)
    ensures IsBits(compressed)
    ensures decompressed == "Hello, World!"
  {
    var input := "Hello, World!";
    assert input[0] != input[1];
    compressed, decompressed := CompressThenDecompress(input);
  }

  /**
   * A '\0' matches the internal root, whose code is the empty path: it is
   * dropped from the compressed text, and decompression returns the input
   * without it.
   */
  lemma NulIsDropped(a: string, b: string, root: Node)
    requires root.Internal?
    requires forall i :: 0 <= i < |a| ==> a[i] != Nul && Contains(root, a[i])
    requires forall i :: 0 <= i < |b| ==> b[i] != Nul && Contains(root, b[i])
    ensures Encode(a + [Nul] + b, root) == Encode(a + b, root)
    ensures Decode(Encode(a + [Nul] + b, root), root) == a + b
  {
    EncodeSkipsNul(a, b, root);
    var ab := a + b;
    forall i | 0 <= i < |ab|
      ensures ab[i] != Nul && Contains(root, ab[i])
    {
      if i < |a| { assert ab[i] == a[i]; } else { assert ab[i] == b[i - |a|]; }
    }
    DecodeEncode(ab, root);
  }

  /** The '\0' between `a` and `b` adds nothing to the encoding. */
  lemma EncodeSkipsNul(a: string, b: string, root: Node)
    requires root.Internal?
    ensures Encode(a + [Nul] + b, root) == Encode(a + b, root)
  {
    EncodeAppend(a + [Nul], b, root);
    EncodeAppend(a, [Nul], root);
    EncodeAppend(a, b, root);
    NulCodeIsEmpty(root);
  }

  /** The one-character text "\0" encodes to nothing in a tree with an internal root. */
  lemma NulCodeIsEmpty(root: Node)
    requires root.Internal?
    ensures Encode([Nul], root) == []
  {
    assert [Nul][1..] == [];
  }

  /**
   * `main` for a non-empty input made of one character `c`: the table has the
   * single key `c`, so the queue loop never runs and the tree is the bare
   * leaf of `c`. Its code is the empty path, so the compressed text is empty
   * and decompression gives the empty text, not the input.
   */
  method SingleSymbolRoundTrip(input: string, c: char) returns (compressed: string, decompressed: string)
    requires input != [] && forall i :: 0 <= i < |input| ==> input[i] == c
    ensures compressed == []
    ensures decompressed == []
  {
    var frequencyMap := FrequencyMap(input);
    var root := BuildHuffmanTree(frequencyMap);
    assert input[0] == c;
    forall d | d in frequencyMap
      ensures d == c
    {
      assert d in input;
    }
    assert frequencyMap.Keys == {c};
    var tree := root.value;
    LeafCharsSize(tree);
    assert tree == Leaf(c, tree.frequency);
    compressed := Compress(input, root);
    SingleSymbolEncodesEmpty(input, c, tree.frequency);
    decompressed := Decompress(compressed, root);
  }

  /**
   * With one distinct character the tree is a bare leaf whose code is the
   * empty path: every input made of that character compresses to nothing.
   */
  lemma {:induction false} SingleSymbolEncodesEmpty(s: string, c: char, f: int)
    requires forall i :: 0 <= i < |s| ==> s[i] == c
    ensures Encode(s, Leaf(c, f)) == []
  {
    if s != [] {
      SingleSymbolEncodesEmpty(s[1..], c, f);
    }
  }
}
