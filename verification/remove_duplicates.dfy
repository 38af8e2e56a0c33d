/** `remove_duplicates` and `sol_remove_duplicates`. The first counts the
    length left after dropping every element equal to its left neighbour; the
    second compacts the array in place, writing each element that differs from
    its left neighbour at `insert_index`. The in-place list is modelled as a
    sequence the method returns along with the length. */
module RemoveDuplicates {
  import opened Seqs

  /** The first `n` elements of `s` with every run of equal neighbours
      collapsed to one element. */
  function Collapse(s: seq<int>, n: nat): seq<int>
    requires n <= |s|
    decreases n
  {
    if n <= 1 then s[..n]
    else if s[n - 2] == s[n - 1] then Collapse(s, n - 1)
    else Collapse(s, n - 1) + [s[n - 1]]
  }

  ghost function Values(s: seq<int>): set<int> {
    set x | x in s
  }

  ghost predicate StrictlyIncreasing(s: seq<int>) {
    forall i, j :: 0 <= i < j < |s| ==> s[i] < s[j]
  }

  /** A non-empty collapse ends with the last element it covers. */
  lemma {:induction false} CollapseLast(s: seq<int>, n: nat)
    requires 1 <= n <= |s|
    ensures |Collapse(s, n)| >= 1
    ensures Collapse(s, n)[|Collapse(s, n)| - 1] == s[n - 1]
    decreases n
  {
    if n > 1 && s[n - 2] == s[n - 1] {
      CollapseLast(s, n - 1);
    }
  }

  /** On sorted input the collapse is strictly increasing and keeps exactly
      the values of the prefix it covers. */
  lemma {:induction false} CollapseSorted(s: seq<int>, n: nat)
    requires n <= |s|
    requires Sorted(s)
    ensures StrictlyIncreasing(Collapse(s, n))
    ensures Values(Collapse(s, n)) == Values(s[..n])
    decreases n
  {
    if n > 1 {
      CollapseSorted(s, n - 1);
      CollapseLast(s, n - 1);
      var c := Collapse(s, n - 1);
      assert s[..n] == s[..n - 1] + [s[n - 1]];
      if s[n - 2] == s[n - 1] {
        assert s[n - 1] in s[..n - 1];
      } else {
        assert c[|c| - 1] < s[n - 1];
        assert c + [s[n - 1]] == Collapse(s, n);
        assert Values(c + [s[n - 1]]) == Values(c) + {s[n - 1]};
      }
      assert Values(s[..n]) == Values(s[..n - 1]) + {s[n - 1]};
    }
  }

  /** A strictly increasing sequence holds as many values as elements. */
  lemma {:induction false} IncreasingValuesCard(s: seq<int>)
    requires StrictlyIncreasing(s)
    ensures |Values(s)| == |s|
    decreases |s|
  {
    if |s| > 0 {
      var prefix := s[..|s| - 1];
      IncreasingValuesCard(prefix);
      assert s == prefix + [s[|s| - 1]];
      assert Values(s) == Values(prefix) + {s[|s| - 1]};
      assert s[|s| - 1] !in Values(prefix);
    }
  }

  /** On sorted input the collapse is as long as the number of distinct values. */
  lemma SortedCollapseLength(s: seq<int>)
    requires Sorted(s)
    ensures |Collapse(s, |s|)| == |Values(s)|
  {
    CollapseSorted(s, |s|);
    IncreasingValuesCard(Collapse(s, |s|));
    assert s[..|s|] == s;
  }

  /** `remove_duplicates(arr)`: the length of the collapsed array, which on
      sorted input is the number of distinct values. */
  method RemoveDuplicates(arr: seq<int>) returns (removedArrayLength: int)
    ensures removedArrayLength == |Collapse(arr, |arr|)|
    ensures Sorted(arr) ==> removedArrayLength == |Values(arr)|
  {
    removedArrayLength := |arr|;
    if |arr| > 0 {
      var i := 1;
      while i < |arr|
        invariant 1 <= i <= |arr|
        invariant removedArrayLength == |arr| - i + |Collapse(arr, i)|
      {
        if arr[i - 1] == arr[i] {
          removedArrayLength := removedArrayLength - 1;
        }
        i := i + 1;
      }
    }
    if Sorted(arr) {
      SortedCollapseLength(arr);
    }
  }

  /** `sol_remove_duplicates(arr)`: compacts the array in place and returns
      `insert_index`. Writes land at or before the element being read, so the
      part from `insert_index` on is untouched and the front holds the
      collapsed array; on sorted input that is the distinct values in
      increasing order. An empty array answers 1. */
  method SolRemoveDuplicates(arr0: seq<int>) returns (arr: seq<int>, insertIndex: int)
    ensures |arr| == |arr0|
    ensures |arr0| == 0 ==> insertIndex == 1
    ensures |arr0| > 0 ==> 1 <= insertIndex <= |arr0|
    ensures |arr0| > 0 ==> arr[..insertIndex] == Collapse(arr0, |arr0|)
    ensures |arr0| > 0 ==> arr[insertIndex..] == arr0[insertIndex..]
    ensures |arr0| > 0 && Sorted(arr0) ==>
              && StrictlyIncreasing(arr[..insertIndex])
              && Values(arr[..insertIndex]) == Values(arr0)
              && insertIndex == |Values(arr0)|
  {
    arr := arr0;
    insertIndex := 1;
    if |arr0| == 0 {
      return;
    }
    var i := 1;
    while i < |arr|
      invariant |arr| == |arr0|
      invariant 1 <= insertIndex <= i <= |arr|
      invariant arr[..insertIndex] == Collapse(arr0, i)
      invariant arr[insertIndex..] == arr0[insertIndex..]
      invariant arr[i - 1] == arr0[i - 1]
    {
      assert arr[i] == arr0[i];
      if arr[i - 1] != arr[i] {
        arr := arr[insertIndex := arr[i]];
        insertIndex := insertIndex + 1;
      }
      i := i + 1;
    }
    if Sorted(arr0) {
      CollapseSorted(arr0, |arr0|);
      SortedCollapseLength(arr0);
      assert arr0[..|arr0|] == arr0;
    }
  }

  /** Both functions answer 4 on `[2, 3, 3, 3, 6, 9, 9]`. */
  lemma ExampleOne()
    ensures |Collapse([2, 3, 3, 3, 6, 9, 9], 7)| == 4
  {
  }

  /** Both functions answer 2 on `[2, 2, 2, 11]`. */
  lemma ExampleTwo()
    ensures |Collapse([2, 2, 2, 11], 4)| == 2
  {
  }
}
