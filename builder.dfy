// `buildHuffmanTree` of HuffmanCoding.java: one leaf per table entry goes into
// a priority queue ordered by `compareTo`; the two smallest nodes are
// repeatedly polled and replaced by an internal node over them, until at most
// one node is left, which `poll` returns (null for an empty table).

module TreeBuilder {
  import opened HuffmanTree
  import opened FrequencyTable

  /** The sum of the frequencies of the nodes in a queue. */
  function ForestWeight(q: seq<Node>): int {
    if q == [] then 0 else q[0].frequency + ForestWeight(q[1..])
  }

  /** The characters of all leaves of all nodes in a queue. */
  function ForestChars(q: seq<Node>): multiset<char> {
    if q == [] then multiset{} else LeafChars(q[0]) + ForestChars(q[1..])
  }

  /** The total frequency of a queue is the sum over its parts. */
  lemma {:induction false} ForestWeightAppend(a: seq<Node>, b: seq<Node>)
    ensures ForestWeight(a + b) == ForestWeight(a) + ForestWeight(b)
  {
    if a == [] {
      assert a + b == b;
    } else {
      assert (a + b)[1..] == a[1..] + b;
      ForestWeightAppend(a[1..], b);
    }
  }

  /** The leaf characters of a queue are the sum over its parts. */
  lemma {:induction false} ForestCharsAppend(a: seq<Node>, b: seq<Node>)
    ensures ForestChars(a + b) == ForestChars(a) + ForestChars(b)
  {
    if a == [] {
      assert a + b == b;
    } else {
      assert (a + b)[1..] == a[1..] + b;
      ForestCharsAppend(a[1..], b);
    }
  }

  /** A queue of one node: that node's frequency and leaves are the queue's. */
  lemma SingletonForest(n: Node)
    ensures ForestWeight([n]) == n.frequency
    ensures ForestChars([n]) == LeafChars(n)
  {
    assert [n][1..] == [];
  }

  /** The queue `q` with the node at index `i` taken out. */
  function Without(q: seq<Node>, i: nat): (r: seq<Node>)
    requires i < |q|
    ensures |r| == |q| - 1
  {
    q[..i] + q[i + 1..]
  }

  /** Taking the node at index `i` out of a queue takes out its frequency. */
  lemma ForestWeightRemove(q: seq<Node>, i: nat)
    requires i < |q|
    ensures ForestWeight(q) == q[i].frequency + ForestWeight(Without(q, i))
  {
    assert q == q[..i] + q[i..];
    ForestWeightAppend(q[..i], q[i..]);
    assert q[i..][1..] == q[i + 1..];
    ForestWeightAppend(q[..i], q[i + 1..]);
  }

  /** Taking the node at index `i` out of a queue takes out its leaves. */
  lemma ForestCharsRemove(q: seq<Node>, i: nat)
    requires i < |q|
    ensures ForestChars(q) == LeafChars(q[i]) + ForestChars(Without(q, i))
  {
    assert q == q[..i] + q[i..];
    ForestCharsAppend(q[..i], q[i..]);
    assert q[i..][1..] == q[i + 1..];
    ForestCharsAppend(q[..i], q[i + 1..]);
  }

  /** Node `q[i]` compares lowest: no node of the queue is strictly smaller. */
  predicate IsMinAt(q: seq<Node>, i: int) {
    0 <= i < |q| && forall j :: 0 <= j < |q| ==> q[i].CompareTo(q[j]) <= 0
  }

  /** Every non-empty queue has a minimum. */
  lemma {:induction false} MinExists(q: seq<Node>)
    requires q != []
    ensures exists i :: IsMinAt(q, i)
  {
    if |q| > 1 {
      MinExists(q[1..]);
      var k :| IsMinAt(q[1..], k);
      if q[0].frequency <= q[k + 1].frequency {
        assert IsMinAt(q, 0);
      } else {
        assert IsMinAt(q, k + 1);
      }
    } else {
      assert IsMinAt(q, 0);
    }
  }

  /**
   * The java.util.PriorityQueue<Node> the builder fills. Only its contents
   * are modelled; among nodes that compare equal, `Poll` may return any of
   * them, because the library does not specify which.
   */
  class NodeQueue {
    var items: seq<Node>

    constructor ()
      ensures items == []
    {
      items := [];
    }

    /** `add`: the node joins the queue. */
    method Add(n: Node)
      modifies this
      ensures items == old(items) + [n]
    {
      items := items + [n];
    }

    /**
     * `poll`: null on an empty queue; otherwise removes and returns a node
     * that compares lowest. `i` is where that node stood.
     */
    method Poll() returns (r: Option<Node>, ghost i: nat)
      modifies this
      ensures old(items) == [] ==> r == None && items == []
      ensures old(items) != [] ==>
        IsMinAt(old(items), i) && r == Some(old(items)[i]) &&
        items == Without(old(items), i)
    {
      if items == [] {
        r, i := None, 0;
      } else {
        MinExists(items);
        var k :| IsMinAt(items, k);
        r, i := Some(items[k]), k;
        items := Without(items, k);
      }
    }
  }

  /** What every node in the queue satisfies while the tree is built for `m`. */
  predicate QueueInvariant(q: seq<Node>, m: map<char, int>) {
    forall k :: 0 <= k < |q| ==> WellWeighted(q[k]) && LeavesAgree(q[k], m)
  }

  /** Polling keeps the invariant of the nodes that stay. */
  lemma QueueInvariantWithout(q: seq<Node>, i: nat, m: map<char, int>)
    requires i < |q| && QueueInvariant(q, m)
    ensures QueueInvariant(Without(q, i), m)
  {
    var r := Without(q, i);
    forall k | 0 <= k < |r|
      ensures WellWeighted(r[k]) && LeavesAgree(r[k], m)
    {
      if k < i { assert r[k] == q[..i][k]; } else { assert r[k] == q[i + 1..][k - i]; }
    }
  }

  /**
   * The queue after one round of the loop, on its contents: `q0[i]` is
   * polled, then the node at index `j` of what is left, and the internal
   * node over both is added. The queue shrinks by one and keeps its total
   * frequency and its leaves.
   */
  function Combined(q0: seq<Node>, i: nat, j: nat): (r: seq<Node>)
    requires i < |q0| && j < |q0| - 1
    ensures |r| == |q0| - 1
    ensures ForestWeight(r) == ForestWeight(q0)
    ensures ForestChars(r) == ForestChars(q0)
  {
    var q1 := Without(q0, i);
    var n := Internal(q0[i].frequency + q1[j].frequency, q0[i], q1[j]);
    ForestWeightRemove(q0, i);
    ForestWeightRemove(q1, j);
    ForestWeightAppend(Without(q1, j), [n]);
    ForestCharsRemove(q0, i);
    ForestCharsRemove(q1, j);
    ForestCharsAppend(Without(q1, j), [n]);
    SingletonForest(n);
    Without(q1, j) + [n]
  }

  /**
   * A round keeps the queue's invariant, and the new node's right child
   * compares no greater than any node that stays.
   */
  lemma CombineKeepsInvariant(q0: seq<Node>, i: nat, j: nat, m: map<char, int>)
    requires i < |q0| && IsMinAt(Without(q0, i), j)
    requires QueueInvariant(q0, m)
    ensures QueueInvariant(Combined(q0, i, j), m)
    ensures var q3 := Combined(q0, i, j);
      forall k :: 0 <= k < |q3| - 1 ==> q3[|q3| - 1].right.CompareTo(q3[k]) <= 0
  {
    var q1 := Without(q0, i);
    var q2 := Without(q1, j);
    var q3 := Combined(q0, i, j);
    QueueInvariantWithout(q0, i, m);
    QueueInvariantWithout(q1, j, m);
    forall k | 0 <= k < |q3|
      ensures WellWeighted(q3[k]) && LeavesAgree(q3[k], m)
    {
      if k < |q2| { assert q3[k] == q2[k]; }
    }
    forall k | 0 <= k < |q3| - 1
      ensures q3[|q3| - 1].right.CompareTo(q3[k]) <= 0
    {
      assert q3[k] == q2[k];
    }
  }

  /**
   * One round of the loop (lines 41-48): poll two nodes and add an internal
   * node over them. `i` is where the first polled node stood, `j` where the
   * second stood once the first was gone. The new contents are the old ones
   * without those two, followed by the internal node over them, the left one
   * first. The queue shrinks by exactly one, and its total frequency and its
   * leaves do not change.
   */
  method CombineTwoSmallest(q: NodeQueue, ghost m: map<char, int>) returns (ghost i: nat, ghost j: nat)
    requires |q.items| > 1
    requires QueueInvariant(q.items, m)
    modifies q
    ensures IsMinAt(old(q.items), i) && IsMinAt(Without(old(q.items), i), j)
    ensures q.items == Combined(old(q.items), i, j)
    ensures |q.items| == |old(q.items)| - 1
    ensures ForestWeight(q.items) == old(ForestWeight(q.items))
    ensures ForestChars(q.items) == old(ForestChars(q.items))
    ensures QueueInvariant(q.items, m)
    ensures q.items[|q.items| - 1].Internal?
    ensures forall k :: 0 <= k < |old(q.items)| ==> q.items[|q.items| - 1].left.CompareTo(old(q.items)[k]) <= 0
    ensures forall k :: 0 <= k < |q.items| - 1 ==> q.items[|q.items| - 1].right.CompareTo(q.items[k]) <= 0
  {
    ghost var q0 := q.items;
    var left, right;
    left, i := q.Poll();
    right, j := q.Poll();
    CombineKeepsInvariant(q0, i, j, m);
    var internalNode := Internal(left.value.frequency + right.value.frequency, left.value, right.value);
    q.Add(internalNode);
    assert q.items == Combined(q0, i, j);
  }

  /**
   * While the entries are loaded (lines 35-38): the queue holds one leaf per
   * key already taken from `m`, and `rest` holds the other entries.
   */
  ghost predicate Loading(q: seq<Node>, rest: map<char, int>, m: map<char, int>) {
    && (forall c :: c in rest ==> c in m && rest[c] == m[c])
    && |q| + |rest| == |m|
    && (forall k :: 0 <= k < |q| ==> q[k].Leaf?)
    && ForestWeight(q) + Total(rest) == Total(m)
    && ForestChars(q) == multiset(m.Keys - rest.Keys)
    && QueueInvariant(q, m)
  }

  /** Loading the entry of key `c` as a leaf keeps `Loading`. */
  lemma LoadKeeps(q: seq<Node>, rest: map<char, int>, m: map<char, int>, c: char)
    requires Loading(q, rest, m) && c in rest
    ensures Loading(q + [Leaf(c, rest[c])], rest - {c}, m)
  {
    var leaf := Leaf(c, rest[c]);
    ForestWeightAppend(q, [leaf]);
    ForestCharsAppend(q, [leaf]);
    SingletonForest(leaf);
    TotalRemove(rest, c);
    LoadChars(m.Keys - rest.Keys, m.Keys, rest.Keys, c);
    LoadInvariant(q, leaf, m);
    assert (rest - {c}).Keys == rest.Keys - {c};
    var q' := q + [leaf];
    forall k | 0 <= k < |q'|
      ensures q'[k].Leaf?
    {
      if k < |q| { assert q'[k] == q[k]; }
    }
  }

  /** The keys already loaded, as a multiset, gain the key `c`. */
  lemma LoadChars(done: set<char>, keys: set<char>, restKeys: set<char>, c: char)
    requires done == keys - restKeys && c in restKeys && restKeys <= keys
    ensures multiset(keys - (restKeys - {c})) == multiset(done) + multiset{c}
  {
    assert keys - (restKeys - {c}) == done + {c};
    assert c !in done;
  }

  /** A leaf that agrees with the table keeps the queue's invariant. */
  lemma LoadInvariant(q: seq<Node>, leaf: Node, m: map<char, int>)
    requires QueueInvariant(q, m) && leaf.Leaf? && leaf.character in m && m[leaf.character] == leaf.frequency
    ensures QueueInvariant(q + [leaf], m)
  {
    var q' := q + [leaf];
    forall k | 0 <= k < |q'|
      ensures WellWeighted(q'[k]) && LeavesAgree(q'[k], m)
    {
      if k < |q| { assert q'[k] == q[k]; }
    }
  }

  /**
   * The first half of `buildHuffmanTree` (lines 33-38): a new queue with one
   * leaf per entry of the table, taken in any order. Every node is a leaf
   * `Leaf(k, m[k])`, there are as many as entries, and their characters are
   * exactly the table's keys, so each key has exactly one leaf.
   */
  method LoadEntries(m: map<char, int>) returns (queue: NodeQueue)
    ensures fresh(queue)
    ensures |queue.items| == |m|
    ensures forall k :: 0 <= k < |queue.items| ==>
      queue.items[k].Leaf? && queue.items[k].character in m && m[queue.items[k].character] == queue.items[k].frequency
    ensures ForestWeight(queue.items) == Total(m)
    ensures ForestChars(queue.items) == multiset(m.Keys)
    ensures QueueInvariant(queue.items, m)
    ensures queue.items == [] <==> m == map[]
  {
    queue := new NodeQueue();
    var rest := m;
    while rest != map[]
      invariant Loading(queue.items, rest, m)
      invariant queue.items == [] ==> rest == m
      invariant m == map[] ==> queue.items == []
      decreases |rest|
    {
      var c :| c in rest;
      LoadKeeps(queue.items, rest, m, c);
      queue.Add(Leaf(c, rest[c]));
      rest := rest - {c};
    }
    assert m.Keys - rest.Keys == m.Keys;
  }

  /**
   * `buildHuffmanTree`: null exactly for an empty table. Otherwise the tree is
   * well weighted, its root frequency and the sum of its leaves' frequencies
   * are the table's total, and its leaves are exactly the table's entries,
   * one leaf per key with that key's count.
   */
  method BuildHuffmanTree(frequencyMap: map<char, int>) returns (root: Option<Node>)
    ensures root.None? <==> frequencyMap == map[]
    ensures root.Some? ==> WellWeighted(root.value)
    ensures root.Some? ==> root.value.frequency == Total(frequencyMap)
    ensures root.Some? ==> LeafWeight(root.value) == Total(frequencyMap)
    ensures root.Some? ==> LeafChars(root.value) == multiset(frequencyMap.Keys)
    ensures root.Some? ==> LeavesAgree(root.value, frequencyMap)
  {
    var m := frequencyMap;
    var queue := LoadEntries(m);
    while |queue.items| > 1
      invariant ForestWeight(queue.items) == Total(m)
      invariant ForestChars(queue.items) == multiset(m.Keys)
      invariant QueueInvariant(queue.items, m)
      invariant queue.items == [] ==> m == map[]
      invariant m == map[] ==> queue.items == []
      decreases |queue.items|
    {
      ghost var i, j := CombineTwoSmallest(queue, m);
    }

    ghost var last := queue.items;
    ghost var at;
    root, at := queue.Poll();
    if root.Some? {
      assert last == [root.value];
      SingletonForest(root.value);
      RootWeightIsLeafWeight(root.value);
    }
  }
}
