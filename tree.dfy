// The Huffman tree node of HuffmanCoding.java and the facts about paths in it
// that the code search, the encoder and the decoder share.

module HuffmanTree {

  /** A Java reference that may be null. */
  datatype Option<+T> = None | Some(value: T)

  /** The character the Java code stores in every internal node. */
  const Nul: char := '\0'

  /**
   * A node of the tree. The Java class has a character, a frequency and two
   * child references; the builder only ever creates nodes with no children
   * (one per map entry) or with both (combining two polled nodes), so the
   * two shapes become two constructors.
   */
  datatype Node =
    | Leaf(character: char, frequency: int)
    | Internal(frequency: int, left: Node, right: Node)
  {
    /** The node's `character` field: internal nodes carry '\0'. */
    function Symbol(): (c: char)
      ensures Internal? ==> c == Nul
      ensures Leaf? ==> c == character
    {
      if Leaf? then character else Nul
    }

    /**
     * `compareTo`: orders nodes by frequency alone, with the sign
     * convention of Integer.compare.
     */
    function CompareTo(other: Node): (r: int)
      ensures -1 <= r <= 1
      ensures r < 0 <==> frequency < other.frequency
      ensures r == 0 <==> frequency == other.frequency
      ensures r > 0 <==> frequency > other.frequency
    {
      if frequency < other.frequency then -1
      else if frequency == other.frequency then 0
      else 1
    }
  }

  /** compareTo is antisymmetric and transitive, so it is a total preorder. */
  lemma CompareToIsTotalPreorder(a: Node, b: Node, c: Node)
    ensures a.CompareTo(b) == -b.CompareTo(a)
    ensures a.CompareTo(b) <= 0 || b.CompareTo(a) <= 0
    ensures a.CompareTo(b) <= 0 && b.CompareTo(c) <= 0 ==> a.CompareTo(c) <= 0
  {
  }

  /** Every internal node's frequency is the sum of its children's. */
  predicate WellWeighted(t: Node) {
    match t
    case Leaf(_, _) => true
    case Internal(f, l, r) => f == l.frequency + r.frequency && WellWeighted(l) && WellWeighted(r)
  }

  /** The characters of the leaves of `t`, with multiplicity. */
  function LeafChars(t: Node): multiset<char> {
    match t
    case Leaf(c, _) => multiset{c}
    case Internal(_, l, r) => LeafChars(l) + LeafChars(r)
  }

  /** Every tree has a leaf, and a tree with an internal root has two. */
  lemma {:induction false} LeafCharsSize(t: Node)
    ensures |LeafChars(t)| >= 1
    ensures t.Internal? ==> |LeafChars(t)| >= 2
  {
    if t.Internal? {
      LeafCharsSize(t.left);
      LeafCharsSize(t.right);
    }
  }

  /** The sum of the leaves' frequencies. */
  function LeafWeight(t: Node): int {
    match t
    case Leaf(_, f) => f
    case Internal(_, l, r) => LeafWeight(l) + LeafWeight(r)
  }

  /** In a well-weighted tree the root frequency is the total of its leaves. */
  lemma {:induction false} RootWeightIsLeafWeight(t: Node)
    requires WellWeighted(t)
    ensures t.frequency == LeafWeight(t)
  {
    if t.Internal? {
      RootWeightIsLeafWeight(t.left);
      RootWeightIsLeafWeight(t.right);
    }
  }

  /** Every leaf of `t` is an entry of `m`: its character is a key and its frequency that key's value. */
  predicate LeavesAgree(t: Node, m: map<char, int>) {
    match t
    case Leaf(c, f) => c in m && m[c] == f
    case Internal(_, l, r) => LeavesAgree(l, m) && LeavesAgree(r, m)
  }

  /** Some node of `t` (internal nodes included) has `character == c`. */
  predicate Contains(t: Node, c: char) {
    t.Symbol() == c || (t.Internal? && (Contains(t.left, c) || Contains(t.right, c)))
  }

  /** A character other than '\0' occurs in the tree exactly when some leaf holds it. */
  lemma {:induction false} ContainsIffLeaf(t: Node, c: char)
    requires c != Nul
    ensures Contains(t, c) <==> c in LeafChars(t)
  {
    if t.Internal? {
      ContainsIffLeaf(t.left, c);
      ContainsIffLeaf(t.right, c);
    }
  }

  /** A string made only of '0' and '1'. */
  predicate IsBits(s: string) {
    forall i :: 0 <= i < |s| ==> s[i] == '0' || s[i] == '1'
  }

  /**
   * The node reached from `t` by following `path`: '0' takes the left child,
   * '1' the right child; any other character, or a step below a leaf, reaches
   * nothing.
   */
  function Subtree(t: Node, path: string): Option<Node>
    decreases |path|
  {
    if path == [] then Some(t)
    else if t.Leaf? then None
    else if path[0] == '0' then Subtree(t.left, path[1..])
    else if path[0] == '1' then Subtree(t.right, path[1..])
    else None
  }

  /** Following `p` from `t` reaches a node whose character is `c`. */
  predicate Reaches(t: Node, p: string, c: char) {
    Subtree(t, p).Some? && Subtree(t, p).value.Symbol() == c
  }

  /** Only a path of '0's and '1's reaches anything. */
  lemma {:induction false} SubtreePathIsBits(t: Node, p: string)
    requires Subtree(t, p).Some?
    ensures IsBits(p)
  {
    if p != [] {
      SubtreePathIsBits(if p[0] == '0' then t.left else t.right, p[1..]);
    }
  }

  /** Following `p + q` is following `p`, then `q` from where `p` ended. */
  lemma {:induction false} SubtreeAppend(t: Node, p: string, q: string)
    ensures Subtree(t, p + q) == (if Subtree(t, p).Some? then Subtree(Subtree(t, p).value, q) else None)
    decreases |p|
  {
    if p == [] {
      assert p + q == q;
    } else {
      assert (p + q)[0] == p[0];
      assert (p + q)[1..] == p[1..] + q;
      if t.Internal? && (p[0] == '0' || p[0] == '1') {
        SubtreeAppend(if p[0] == '0' then t.left else t.right, p[1..], q);
      }
    }
  }

  /** Nothing lies below a leaf: the only path from a leaf is the empty one. */
  lemma LeafHasNoDescendants(t: Node, q: string)
    requires t.Leaf?
    ensures Subtree(t, q).Some? <==> q == []
  {
  }
}
