// `frequencyMap` of HuffmanCoding.java: a HashMap from each character of the
// input to its number of occurrences, filled in one pass.

module FrequencyTable {

  /** The sum of the values of `m` (the total frequency of a table). */
  ghost function Total(m: map<char, int>): int
    decreases |m|
  {
    if m == map[] then 0
    else
      var k :| k in m;
      m[k] + Total(m - {k})
  }

  /** Whichever key is taken out first, the total is the same. */
  lemma {:induction false} TotalRemove(m: map<char, int>, k: char)
    requires k in m
    ensures Total(m) == m[k] + Total(m - {k})
    decreases |m|
  {
    var j :| j in m && Total(m) == m[j] + Total(m - {j});
    if j != k {
      assert |m - {j}| < |m|;
      TotalRemove(m - {j}, k);
      TotalRemove(m - {k}, j);
      assert m - {j} - {k} == m - {k} - {j};
    }
  }

  /** Setting key `k` to `v` changes the total by the difference. */
  lemma TotalUpdate(m: map<char, int>, k: char, v: int)
    ensures Total(m[k := v]) == Total(m) - (if k in m then m[k] else 0) + v
  {
    TotalRemove(m[k := v], k);
    assert m[k := v] - {k} == m - {k};
    if k in m {
      TotalRemove(m, k);
    } else {
      assert m - {k} == m;
    }
  }

  /**
   * `m` is the frequency table of `s`: its keys are exactly the characters of
   * `s`, each mapped to its number of occurrences.
   */
  ghost predicate CountsOf(m: map<char, int>, s: string) {
    (forall c :: c in m <==> c in s) &&
    (forall c :: c in m ==> m[c] == multiset(s)[c])
  }

  /** A frequency table is determined by its string. */
  lemma CountsOfIsUnique(m: map<char, int>, m': map<char, int>, s: string)
    requires CountsOf(m, s) && CountsOf(m', s)
    ensures m == m'
  {
    assert m.Keys == m'.Keys;
  }

  /**
   * `frequencyMap`: for each character, `getOrDefault(c, 0) + 1` is stored
   * back. The result is the frequency table of the input, and its counts add
   * up to the input's length.
   */
  method FrequencyMap(input: string) returns (m: map<char, int>)
    ensures CountsOf(m, input)
    ensures forall c :: c in m ==> m[c] >= 1
    ensures Total(m) == |input|
  {
    m := map[];
    var i := 0;
    while i < |input|
      invariant 0 <= i <= |input|
      invariant CountsOf(m, input[..i])
      invariant Total(m) == i
    {
      var c := input[i];
      assert input[..i + 1] == input[..i] + [c];
      TotalUpdate(m, c, (if c in m then m[c] else 0) + 1);
      m := m[c := (if c in m then m[c] else 0) + 1];
      i := i + 1;
    }
    assert input[..i] == input;
    forall c | c in m
      ensures m[c] >= 1
    {
      assert c in multiset(input);
    }
  }
}
