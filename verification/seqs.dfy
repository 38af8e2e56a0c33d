/** Sums, products, orderings and sorting over integer sequences, shared by the
    sliding-window and two-pointer models. */
module Seqs {

  /** Python's `sum(xs)`. */
  function Sum(xs: seq<int>): int
    decreases |xs|
  {
    if |xs| == 0 then 0 else Sum(xs[..|xs| - 1]) + xs[|xs| - 1]
  }

  /** The product of all elements; 1 for the empty sequence. */
  function Prod(xs: seq<int>): int
    decreases |xs|
  {
    if |xs| == 0 then 1 else Prod(xs[..|xs| - 1]) * xs[|xs| - 1]
  }

  function Max(a: int, b: int): int { if a < b then b else a }

  function Min(a: int, b: int): int { if a < b then a else b }

  function Abs(x: int): nat { if x < 0 then -x else x }

  ghost predicate Sorted(xs: seq<int>) {
    forall i, j :: 0 <= i < j < |xs| ==> xs[i] <= xs[j]
  }

  ghost predicate AllPositive(xs: seq<int>) {
    forall i :: 0 <= i < |xs| ==> xs[i] > 0
  }

  /** Sum distributes over concatenation. */
  lemma {:induction false} SumAppend(a: seq<int>, b: seq<int>)
    ensures Sum(a + b) == Sum(a) + Sum(b)
    decreases |b|
  {
    if |b| == 0 {
      assert a + b == a;
    } else {
      assert (a + b)[..|a + b| - 1] == a + b[..|b| - 1];
      SumAppend(a, b[..|b| - 1]);
    }
  }

  /** Peeling the first element off a sum. */
  lemma SumFront(xs: seq<int>)
    requires |xs| > 0
    ensures Sum(xs) == xs[0] + Sum(xs[1..])
  {
    assert xs == [xs[0]] + xs[1..];
    SumAppend([xs[0]], xs[1..]);
    assert Sum([xs[0]]) == Sum([]) + xs[0];
  }

  /** Replacing one element changes the sum by the difference. */
  lemma SumUpdate(xs: seq<int>, i: int, v: int)
    requires 0 <= i < |xs|
    ensures Sum(xs[i := v]) == Sum(xs) - xs[i] + v
  {
    assert xs == xs[..i] + [xs[i]] + xs[i + 1..];
    assert xs[i := v] == xs[..i] + [v] + xs[i + 1..];
    SumAppend(xs[..i] + [xs[i]], xs[i + 1..]);
    SumAppend(xs[..i], [xs[i]]);
    SumAppend(xs[..i] + [v], xs[i + 1..]);
    SumAppend(xs[..i], [v]);
    assert Sum([v]) == Sum([]) + v;
    assert Sum([xs[i]]) == Sum([]) + xs[i];
  }

  /** A sum of positive integers is at least the number of terms. */
  lemma {:induction false} SumOfPositives(xs: seq<int>)
    requires AllPositive(xs)
    ensures Sum(xs) >= |xs|
    decreases |xs|
  {
    if |xs| > 0 {
      SumOfPositives(xs[..|xs| - 1]);
    }
  }

  /** Among positive integers, a window's suffix sums to no more than the window. */
  lemma SuffixSumLe(xs: seq<int>, i: int, k: int, j: int)
    requires AllPositive(xs)
    requires 0 <= i <= k <= j <= |xs|
    ensures Sum(xs[k..j]) <= Sum(xs[i..j])
  {
    assert xs[i..j] == xs[i..k] + xs[k..j];
    SumAppend(xs[i..k], xs[k..j]);
    SumOfPositives(xs[i..k]);
  }

  /** The sum of a one-element window. */
  lemma SumSingle(xs: seq<int>, i: int)
    requires 0 <= i < |xs|
    ensures Sum(xs[i..i + 1]) == xs[i]
  {
    assert xs[i..i + 1][..0] == [];
  }

  /** The sum of a two-element sequence. */
  lemma SumTwo(a: int, b: int)
    ensures Sum([a, b]) == a + b
  {
    assert [a, b][..1] == [a];
    assert [a][..0] == [];
    assert Sum([a]) == Sum([]) + a;
  }

  /** The sum of a three-element sequence. */
  lemma SumThree(a: int, b: int, c: int)
    ensures Sum([a, b, c]) == a + b + c
  {
    assert [a, b, c][..2] == [a, b];
    SumTwo(a, b);
  }

  /** The window sum after extending a window by one element on the right. */
  lemma SumExtend(xs: seq<int>, i: int, j: int)
    requires 0 <= i <= j < |xs|
    ensures Sum(xs[i..j + 1]) == Sum(xs[i..j]) + xs[j]
  {
    assert xs[i..j + 1][..j - i] == xs[i..j];
  }

  /** The window sum after dropping the window's first element. */
  lemma SumShrink(xs: seq<int>, i: int, j: int)
    requires 0 <= i < j <= |xs|
    ensures Sum(xs[i + 1..j]) == Sum(xs[i..j]) - xs[i]
  {
    SumFront(xs[i..j]);
    assert xs[i..j][1..] == xs[i + 1..j];
  }

  /** Product distributes over concatenation. */
  lemma {:induction false} ProdAppend(a: seq<int>, b: seq<int>)
    ensures Prod(a + b) == Prod(a) * Prod(b)
    decreases |b|
  {
    if |b| == 0 {
      assert a + b == a;
    } else {
      assert (a + b)[..|a + b| - 1] == a + b[..|b| - 1];
      ProdAppend(a, b[..|b| - 1]);
      calc {
        Prod(a + b);
        Prod(a + b[..|b| - 1]) * b[|b| - 1];
        (Prod(a) * Prod(b[..|b| - 1])) * b[|b| - 1];
        Prod(a) * (Prod(b[..|b| - 1]) * b[|b| - 1]);
      }
    }
  }

  /** A product of positive integers is positive. */
  lemma {:induction false} ProdPositive(xs: seq<int>)
    requires AllPositive(xs)
    ensures Prod(xs) >= 1
    decreases |xs|
  {
    if |xs| > 0 {
      ProdPositive(xs[..|xs| - 1]);
      var p := Prod(xs[..|xs| - 1]);
      assert p * xs[|xs| - 1] >= p * 1;
    }
  }

  /** Sorting a sequence: the result is ordered and holds the same elements. */
  function SortInts(xs: seq<int>): (r: seq<int>)
    ensures Sorted(r)
    ensures multiset(r) == multiset(xs)
    ensures |r| == |xs|
    decreases |xs|
  {
    if |xs| == 0 then []
    else
      var rest := SortInts(xs[..|xs| - 1]);
      assert xs == xs[..|xs| - 1] + [xs[|xs| - 1]];
      Insert(rest, xs[|xs| - 1])
  }

  /** Inserts `x` into a sorted sequence, keeping it sorted. */
  function Insert(xs: seq<int>, x: int): (r: seq<int>)
    requires Sorted(xs)
    ensures Sorted(r)
    ensures multiset(r) == multiset(xs) + multiset{x}
    ensures |r| == |xs| + 1
    decreases |xs|
  {
    if |xs| == 0 then [x]
    else if x <= xs[0] then [x] + xs
    else
      var tail := Insert(xs[1..], x);
      assert xs == [xs[0]] + xs[1..];
      InsertHead(xs[0], xs[1..], x, tail);
      [xs[0]] + tail
  }

  /** Putting `h` in front of the insertion of `x > h` into a tail bounded below by `h` keeps order. */
  lemma InsertHead(h: int, rest: seq<int>, x: int, tail: seq<int>)
    requires h < x
    requires forall k :: 0 <= k < |rest| ==> h <= rest[k]
    requires Sorted(tail)
    requires multiset(tail) == multiset(rest) + multiset{x}
    ensures Sorted([h] + tail)
  {
    forall k | 0 <= k < |tail|
      ensures h <= tail[k]
    {
      assert tail[k] in multiset(tail);
      if tail[k] != x {
        assert tail[k] in multiset(rest);
      }
    }
  }

  /** Ordered neighbours make an ordered sequence. */
  lemma {:induction false} AdjacentSorted(xs: seq<int>)
    requires forall i :: 0 <= i < |xs| - 1 ==> xs[i] <= xs[i + 1]
    ensures Sorted(xs)
    decreases |xs|
  {
    if |xs| > 1 {
      var prefix := xs[..|xs| - 1];
      AdjacentSorted(prefix);
      forall i | 0 <= i < |xs| - 1
        ensures xs[i] <= xs[|xs| - 1]
      {
        assert prefix[i] <= prefix[|prefix| - 1];
      }
    }
  }

  /** Two sorted sequences with the same elements are equal: sorting has a unique result. */
  lemma {:induction false} SortedUnique(a: seq<int>, b: seq<int>)
    requires Sorted(a) && Sorted(b)
    requires multiset(a) == multiset(b)
    ensures a == b
    decreases |a|
  {
    assert |a| == |multiset(a)| == |multiset(b)| == |b|;
    if |a| > 0 {
      SortedHeads(a, b);
      assert a == [a[0]] + a[1..];
      assert b == [b[0]] + b[1..];
      assert multiset(a[1..]) == multiset(a) - multiset{a[0]};
      assert multiset(b[1..]) == multiset(b) - multiset{b[0]};
      SortedUnique(a[1..], b[1..]);
    }
  }

  /** Sorted arrangements of the same elements start with the same element. */
  lemma SortedHeads(a: seq<int>, b: seq<int>)
    requires Sorted(a) && Sorted(b)
    requires multiset(a) == multiset(b)
    requires |a| > 0 && |b| > 0
    ensures a[0] == b[0]
  {
    assert a[0] in multiset(b);
    assert b[0] in multiset(a);
    var i :| 0 <= i < |b| && b[i] == a[0];
    var j :| 0 <= j < |a| && a[j] == b[0];
  }

  /** `xs` with positions `i` and `j` exchanged (Python's tuple swap). */
  function Swap(xs: seq<int>, i: int, j: int): (r: seq<int>)
    requires 0 <= i < |xs| && 0 <= j < |xs|
    ensures |r| == |xs|
    ensures r[i] == xs[j] && r[j] == xs[i]
    ensures forall k :: 0 <= k < |xs| && k != i && k != j ==> r[k] == xs[k]
    ensures multiset(r) == multiset(xs)
  {
    xs[i := xs[j]][j := xs[i]]
  }

  /** Removing the window's first element from its counts. */
  lemma DropFirst<T>(s: seq<T>, i: int, e: int)
    requires 0 <= i < e <= |s|
    ensures multiset(s[i + 1..e]) == multiset(s[i..e])[s[i] := multiset(s[i..e])[s[i]] - 1]
  {
    assert s[i..e] == [s[i]] + s[i + 1..e];
  }

  /** Adding the element that enters on the right to the counts. */
  lemma AddLast<T>(s: seq<T>, i: int, e: int)
    requires 0 <= i <= e < |s|
    ensures multiset(s[i..e + 1]) == multiset(s[i..e])[s[e] := multiset(s[i..e])[s[e]] + 1]
  {
    assert s[i..e + 1] == s[i..e] + [s[e]];
  }

  /** A subset is no larger than its superset. */
  lemma {:induction false} SubsetCard<T>(a: set<T>, b: set<T>)
    requires a <= b
    ensures |a| <= |b|
    decreases |a|
  {
    if a != {} {
      var x :| x in a;
      SubsetCard(a - {x}, b - {x});
    }
  }

  /** A subset as large as its superset is the whole superset. */
  lemma SubsetSameCard<T>(a: set<T>, b: set<T>)
    requires a <= b && |a| == |b|
    ensures a == b
  {
    if a != b {
      var x :| x in b && x !in a;
      SubsetCard(a, b - {x});
      assert false;
    }
  }

  /** The integers from `lo` to `hi`. */
  ghost function Range(lo: int, hi: int): set<int>
    decreases hi - lo
  {
    if lo > hi then {} else {lo} + Range(lo + 1, hi)
  }

  lemma {:induction false} InRange(lo: int, hi: int, x: int)
    requires lo <= x <= hi
    ensures x in Range(lo, hi)
    decreases hi - lo
  {
    if lo < x {
      InRange(lo + 1, hi, x);
    }
  }
}
