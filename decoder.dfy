// `decompress` of HuffmanCoding.java: a cursor starts at the root and moves
// to the left child on '0' and to the right child on any other character;
// whenever it lands on a leaf, the leaf's character is written and the cursor
// goes back to the root.

module Decoder {
  import opened HuffmanTree

  /** The child the cursor moves to on reading `bit`. */
  function Step(cur: Node, bit: char): Node
    requires cur.Internal?
  {
    if bit == '0' then cur.left else cur.right
  }

  /**
   * The characters written while reading `bits` with the cursor at `cur`.
   * The cursor is never on a leaf between steps, since it is reset to the
   * internal root as soon as it reaches one. Bits left over after the last
   * leaf write nothing.
   */
  function Walk(root: Node, cur: Node, bits: string): string
    requires root.Internal? && cur.Internal?
    decreases |bits|
  {
    if bits == [] then ""
    else
      var next := Step(cur, bits[0]);
      if next.Leaf? then [next.character] + Walk(root, root, bits[1..])
      else Walk(root, next, bits[1..])
  }

  /** The characters written while reading `bits` from the root. */
  function Decode(bits: string, root: Node): string
    requires root.Internal?
  {
    Walk(root, root, bits)
  }

  /**
   * Every written character is the character of a leaf of the tree, and at
   * most one character is written per bit read. Stated for a cursor anywhere
   * below the root: the cursor's leaves are among the root's.
   */
  lemma {:induction false} WalkWritesLeaves(root: Node, cur: Node, bits: string)
    requires root.Internal? && cur.Internal?
    requires LeafChars(cur) <= LeafChars(root)
    ensures |Walk(root, cur, bits)| <= |bits|
    ensures forall i :: 0 <= i < |Walk(root, cur, bits)| ==> Walk(root, cur, bits)[i] in LeafChars(root)
    decreases |bits|
  {
    if bits != [] {
      var next := Step(cur, bits[0]);
      assert LeafChars(next) <= LeafChars(cur);
      if next.Leaf? {
        WalkWritesLeaves(root, root, bits[1..]);
      } else {
        WalkWritesLeaves(root, next, bits[1..]);
      }
    }
  }

  /**
   * Reading a path from the cursor to a leaf holding `c`, followed by any
   * `rest`, writes `c` and then goes on from the root with `rest`.
   */
  lemma {:induction false} WalkPath(root: Node, cur: Node, p: string, rest: string, c: char)
    requires root.Internal? && cur.Internal?
    requires p != [] && Subtree(cur, p).Some? && Subtree(cur, p).value == Leaf(c, Subtree(cur, p).value.frequency)
    ensures Walk(root, cur, p + rest) == [c] + Walk(root, root, rest)
    decreases |p|
  {
    var next := Step(cur, p[0]);
    assert (p + rest)[0] == p[0];
    assert (p + rest)[1..] == p[1..] + rest;
    assert Subtree(cur, p) == Subtree(next, p[1..]);
    if next.Leaf? {
      LeafHasNoDescendants(next, p[1..]);
      assert p[1..] + rest == rest;
    } else {
      LeafHasNoDescendants(Subtree(cur, p).value, []);
      WalkPath(root, next, p[1..], rest, c);
    }
  }

  /**
   * `decompress`. A null root, or a root that is a single leaf, would be
   * dereferenced past its end by any non-empty input; only an empty input
   * is accepted with those.
   */
  method Decompress(compressed: string, root: Option<Node>) returns (decompressed: string)
    requires compressed != [] ==> root.Some? && root.value.Internal?
    ensures compressed == [] ==> decompressed == []
    ensures compressed != [] ==> decompressed == Decode(compressed, root.value)
  {
    if compressed == [] {
      // The loop would not run, and the root is never read.
      return "";
    }
    var tree := root.value;
    var builder := "";
    var currentNode := tree;
    var i := 0;
    while i < |compressed|
      invariant 0 <= i <= |compressed|
      invariant currentNode.Internal?
      invariant builder + Walk(tree, currentNode, compressed[i..]) == Decode(compressed, tree)
    {
      var c := compressed[i];
      assert compressed[i..][0] == c && compressed[i..][1..] == compressed[i + 1..];
      if c == '0' {
        currentNode := currentNode.left;
      } else {
        currentNode := currentNode.right;
      }
      if currentNode.Leaf? {
        builder := builder + [currentNode.character];
        currentNode := tree;
      }
      i := i + 1;
    }
    decompressed := builder;
  }
}
