// `findHuffmanCode` and `compress` of HuffmanCoding.java: the code of a
// character is the path to the first node, in depth-first left-to-right
// order, whose `character` field equals it; the compressed text is the codes
// of the input's characters, one after another.

module Codes {
  import opened HuffmanTree

  /**
   * `findHuffmanCode(c, node, code)`: `code` is the path walked so far. The
   * node's own character is tested before its children, so a '\0' matches
   * the first internal node. A result is `code` extended by a path from
   * `node` to a node holding `c`; null exactly when no node holds `c`.
   */
  function FindCode(c: char, node: Node, code: string): (r: Option<string>)
    ensures r.Some? ==> |code| <= |r.value| && r.value[..|code|] == code
    ensures r.Some? ==> Reaches(node, r.value[|code|..], c)
    ensures r.None? <==> !Contains(node, c)
  {
    if node.Symbol() == c then
      assert code[|code|..] == [];
      Some(code)
    else if node.Leaf? then None
    else
      var leftCode := FindCode(c, node.left, code + "0");
      if leftCode.Some? then
        assert leftCode.value[|code|..] == "0" + leftCode.value[|code| + 1..];
        leftCode
      else
        var rightCode := FindCode(c, node.right, code + "1");
        if rightCode.Some? then
          assert rightCode.value[..|code| + 1][|code|] == (code + "1")[|code|];
          assert rightCode.value[|code|..] == "1" + rightCode.value[|code| + 1..];
          rightCode
        else None
  }

  /**
   * A code for a character other than '\0' leads to a leaf holding it, so in
   * a tree whose root is internal it is never empty and consists of '0's and
   * '1's.
   */
  lemma CodeReachesLeaf(c: char, root: Node, p: string)
    requires c != Nul
    requires FindCode(c, root, "") == Some(p)
    ensures Subtree(root, p) == Some(Leaf(c, Subtree(root, p).value.frequency))
    ensures IsBits(p)
    ensures root.Internal? ==> p != []
  {
    assert p[0..] == p;
    SubtreePathIsBits(root, p);
  }

  /**
   * The codes of two different characters other than '\0' are prefix-free:
   * neither is a prefix of the other.
   */
  lemma CodesArePrefixFree(root: Node, c1: char, c2: char, p1: string, p2: string)
    requires c1 != Nul && c2 != Nul && c1 != c2
    requires FindCode(c1, root, "") == Some(p1) && FindCode(c2, root, "") == Some(p2)
    ensures !(p1 <= p2)
  {
    CodeReachesLeaf(c1, root, p1);
    CodeReachesLeaf(c2, root, p2);
    if p1 <= p2 {
      var q := p2[|p1|..];
      assert p2 == p1 + q;
      SubtreeAppend(root, p1, q);
      LeafHasNoDescendants(Subtree(root, p1).value, q);
    }
  }

  /**
   * What `compressed.append(code)` adds for one character: its code, or the
   * four characters "null" when `findHuffmanCode` returned null (that is what
   * StringBuilder.append does with a null String).
   */
  function CodeText(c: char, root: Node): string {
    var code := FindCode(c, root, "");
    if code.Some? then code.value else "null"
  }

  /** The codes of the characters of `s`, in order. */
  function Encode(s: string, root: Node): string {
    if s == [] then "" else CodeText(s[0], root) + Encode(s[1..], root)
  }

  /** Encoding a string extended by one character appends that character's code. */
  lemma {:induction false} EncodeSnoc(s: string, c: char, root: Node)
    ensures Encode(s + [c], root) == Encode(s, root) + CodeText(c, root)
  {
    if s == [] {
      assert [c][1..] == [];
    } else {
      assert (s + [c])[1..] == s[1..] + [c];
      EncodeSnoc(s[1..], c, root);
    }
  }

  /**
   * The compressed text is made only of '0' and '1' exactly when every
   * character of the input occurs in the tree (otherwise "null" is written).
   */
  lemma {:induction false} EncodeIsBitsIff(s: string, root: Node)
    ensures IsBits(Encode(s, root)) <==> forall i :: 0 <= i < |s| ==> Contains(root, s[i])
  {
    if s != [] {
      EncodeIsBitsIff(s[1..], root);
      var head := CodeText(s[0], root);
      var e := Encode(s, root);
      assert e == head + Encode(s[1..], root);
      var code := FindCode(s[0], root, "");
      if code.Some? {
        assert code.value[0..] == code.value;
        SubtreePathIsBits(root, code.value);
        if IsBits(Encode(s[1..], root)) {
          assert IsBits(e);
        } else {
          var k :| 0 <= k < |Encode(s[1..], root)| && !(Encode(s[1..], root)[k] == '0' || Encode(s[1..], root)[k] == '1');
          assert e[|head| + k] == Encode(s[1..], root)[k];
        }
        forall i | 0 <= i < |s[1..]|
          ensures s[1..][i] == s[i + 1]
        {
        }
        if forall i :: 0 <= i < |s[1..]| ==> Contains(root, s[1..][i]) {
          forall i | 0 <= i < |s|
            ensures Contains(root, s[i])
          {
            if i > 0 { assert s[i] == s[1..][i - 1]; }
          }
        }
      } else {
        assert e[0] == 'n';
      }
    }
  }

  /**
   * `compress`: the codes of the input's characters appended in order. A null
   * root is only ever passed with an empty input (the tree of an empty
   * table); any other input would dereference it.
   */
  method Compress(input: string, root: Option<Node>) returns (compressed: string)
    requires input != [] ==> root.Some?
    ensures root.Some? ==> compressed == Encode(input, root.value)
    ensures root.None? ==> compressed == []
  {
    var builder := "";
    var i := 0;
    while i < |input|
      invariant 0 <= i <= |input|
      invariant root.Some? ==> builder == Encode(input[..i], root.value)
      invariant root.None? ==> builder == []
    {
      var c := input[i];
      var code := FindCode(c, root.value, "");
      assert input[..i + 1] == input[..i] + [c];
      EncodeSnoc(input[..i], c, root.value);
      builder := builder + (if code.Some? then code.value else "null");
      i := i + 1;
    }
    assert input[..i] == input;
    compressed := builder;
  }
}
