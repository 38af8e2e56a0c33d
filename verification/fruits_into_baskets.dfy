/** Fruits into baskets: two baskets, one fruit type each, and a run of
    trees that may not skip a tree. The answer is the longest contiguous run
    holding no more than two fruit types, which is the longest substring
    with no more than `K` distinct characters for `K = 2`; both versions
    here are the two longest-substring loops with `2` in place of `k`. */
module FruitsIntoBaskets {
  import opened KDistinct

  /** The number of baskets, which bounds the fruit types in a run. */
  const Baskets: nat := 2

  /** `fruits_in_baskets`: the same loop as the first longest-substring
      version, recording a run only when it holds exactly two types, so a
      row of trees bearing one type only answers 0. */
  method FruitsInBaskets<T(==)>(fruits: seq<T>) returns (maxLength: nat)
    ensures LongestExact(fruits, Baskets, maxLength, |fruits|)
  {
    maxLength := LongestSubstringWithKDistinct(fruits, Baskets);
  }

  /** `sol_fruits_in_baskets`: records every run, so it answers the longest
      run holding at most two types. */
  method SolFruitsInBaskets<T(==)>(fruits: seq<T>) returns (maxLength: nat)
    ensures LongestAtMostK(fruits, Baskets, maxLength)
  {
    maxLength := SolLongestSubstringWithKDistinct(fruits, Baskets);
  }

  /** On `['A', 'B', 'C', 'A', 'C']` the best run is `['C', 'A', 'C']`. */
  lemma ExampleOne(r: nat)
    requires LongestExact("ABCAC", Baskets, r, 5)
    ensures r == 3
  {
    var s := "ABCAC";
    forall i, j | 0 <= i <= j <= |s| && j - i >= 4
      ensures Distinct(s[i..j]) > 2
    {
      assert s[1] == 'B' && s[2] == 'C' && s[3] == 'A';
      InWindow(s, i, j, 1);
      InWindow(s, i, j, 2);
      InWindow(s, i, j, 3);
      CharsSeen(s[i..j], {'A', 'B', 'C'});
    }
    var w := s[2..5];
    assert w[0] == 'C' && w[1] == 'A';
    CharsWithin(w, {'A', 'C'});
    CharsSeen(w, {'A', 'C'});
    LongestExactUnique(s, Baskets, r, 3);
  }

  /** The same answer from the second version. */
  lemma SolExampleOne(r: nat)
    requires LongestAtMostK("ABCAC", Baskets, r)
    ensures r == 3
  {
    var s := "ABCAC";
    forall i, j | 0 <= i <= j <= |s| && j - i >= 4
      ensures Distinct(s[i..j]) > 2
    {
      assert s[1] == 'B' && s[2] == 'C' && s[3] == 'A';
      InWindow(s, i, j, 1);
      InWindow(s, i, j, 2);
      InWindow(s, i, j, 3);
      CharsSeen(s[i..j], {'A', 'B', 'C'});
    }
    CharsWithin(s[2..5], {'A', 'C'});
    LongestAtMostKUnique(s, Baskets, r, 3);
  }

  /** On `['A', 'B', 'C', 'B', 'B', 'C']` the best run is
      `['B', 'C', 'B', 'B', 'C']`. */
  lemma ExampleTwo(r: nat)
    requires LongestExact("ABCBBC", Baskets, r, 6)
    ensures r == 5
  {
    var s := "ABCBBC";
    forall i, j | 0 <= i <= j <= |s| && j - i >= 6
      ensures Distinct(s[i..j]) > 2
    {
      var w := s[i..j];
      assert w == s;
      assert w[0] == 'A' && w[1] == 'B' && w[2] == 'C';
      CharsSeen(w, {'A', 'B', 'C'});
    }
    var w := s[1..6];
    assert w[0] == 'B' && w[1] == 'C';
    CharsWithin(w, {'B', 'C'});
    CharsSeen(w, {'B', 'C'});
    LongestExactUnique(s, Baskets, r, 5);
  }

  /** The same answer from the second version. */
  lemma SolExampleTwo(r: nat)
    requires LongestAtMostK("ABCBBC", Baskets, r)
    ensures r == 5
  {
    var s := "ABCBBC";
    forall i, j | 0 <= i <= j <= |s| && j - i >= 6
      ensures Distinct(s[i..j]) > 2
    {
      var w := s[i..j];
      assert w == s;
      assert w[0] == 'A' && w[1] == 'B' && w[2] == 'C';
      CharsSeen(w, {'A', 'B', 'C'});
    }
    CharsWithin(s[1..6], {'B', 'C'});
    LongestAtMostKUnique(s, Baskets, r, 5);
  }

  /** A row of trees of one type: the first version answers 0 although
      every fruit fits in one basket ... */
  lemma OneTypeAnswersZero(r: nat)
    requires LongestExact("AAA", Baskets, r, 3)
    ensures r == 0
  {
    var s := "AAA";
    forall i, j | 0 <= i <= j <= 3
      ensures Distinct(s[i..j]) <= 1
    {
      CharsWithin(s[i..j], {'A'});
    }
  }

  /** ... while the second version picks all three. */
  lemma OneTypeSolAnswersThree(r: nat)
    requires LongestAtMostK("AAA", Baskets, r)
    ensures r == 3
  {
    CharsWithin("AAA"[0..3], {'A'});
    LongestAtMostKUnique("AAA", Baskets, r, 3);
  }
}
