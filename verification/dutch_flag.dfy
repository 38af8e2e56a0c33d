/** `sort_dutch_flag`: a single pass with three pointers that swaps zeros to
    the front and twos to the back. The in-place list is modelled as a
    sequence the method returns. Any element other than 0 or 1 takes the
    "2" branch. */
module DutchFlag {
  import opened Seqs

  /** `arr` holds zeros before `low`, ones in `[low, mid)`, and only elements
      other than 0 and 1 after `high`. */
  ghost predicate Banded(arr: seq<int>, low: int, mid: int, high: int)
    requires 0 <= low <= mid <= high + 1 <= |arr|
  {
    && (forall k :: 0 <= k < low ==> arr[k] == 0)
    && (forall k :: low <= k < mid ==> arr[k] == 1)
    && (forall k :: high < k < |arr| ==> arr[k] != 0 && arr[k] != 1)
  }

  /** Zeros before `low`, ones in `[low, mid)`, everything else from `mid` on. */
  ghost predicate Partitioned(arr: seq<int>, low: int, mid: int) {
    0 <= low <= mid <= |arr| && Banded(arr, low, mid, mid - 1)
  }

  ghost predicate IsFlag(x: int) {
    x == 0 || x == 1 || x == 2
  }

  /** `sort_dutch_flag(arr)`: the result rearranges the input into its zeros,
      then its ones, then everything else; on an array of 0s, 1s and 2s it is
      the sorted array. */
  method SortDutchFlag(arr0: seq<int>) returns (arr: seq<int>)
    ensures multiset(arr) == multiset(arr0)
    ensures exists low, mid :: Partitioned(arr, low, mid)
    ensures (forall k :: 0 <= k < |arr0| ==> IsFlag(arr0[k])) ==> Sorted(arr)
  {
    arr := arr0;
    var low, mid, high := 0, 0, |arr| - 1;
    while mid <= high
      invariant 0 <= low <= mid <= high + 1 <= |arr|
      invariant multiset(arr) == multiset(arr0)
      invariant Banded(arr, low, mid, high)
      decreases high - mid
    {
      if arr[mid] == 0 {
        arr := Swap(arr, low, mid);
        low, mid := low + 1, mid + 1;
      } else if arr[mid] == 1 {
        mid := mid + 1;
      } else {
        arr := Swap(arr, mid, high);
        high := high - 1;
      }
    }
    FlagsSorted(arr0, arr, low, mid);
    assert Partitioned(arr, low, mid);
  }

  /** Banded 0s, 1s and 2s are in order. */
  lemma FlagsSorted(arr0: seq<int>, arr: seq<int>, low: int, mid: int)
    requires 0 <= low <= mid <= |arr|
    requires multiset(arr) == multiset(arr0)
    requires Banded(arr, low, mid, mid - 1)
    ensures (forall k :: 0 <= k < |arr0| ==> IsFlag(arr0[k])) ==> Sorted(arr)
  {
    if forall k :: 0 <= k < |arr0| ==> IsFlag(arr0[k]) {
      forall k | 0 <= k < |arr|
        ensures IsFlag(arr[k])
      {
        assert arr[k] in multiset(arr0);
      }
    }
  }

  /** `sort_dutch_flag([0, 1, 2, 1, 0])` is `[0, 0, 1, 1, 2]`. */
  lemma ExampleOne(arr: seq<int>)
    requires multiset(arr) == multiset([0, 1, 2, 1, 0])
    requires Sorted(arr)
    ensures arr == [0, 0, 1, 1, 2]
  {
    SameElements([0, 1, 2, 1, 0], [0, 0, 1, 1, 2]);
    SortedUnique(arr, [0, 0, 1, 1, 2]);
  }

  /** `sort_dutch_flag([2, 2, 0, 1, 2, 0])` is `[0, 0, 1, 2, 2, 2]`. */
  lemma ExampleTwo(arr: seq<int>)
    requires multiset(arr) == multiset([2, 2, 0, 1, 2, 0])
    requires Sorted(arr)
    ensures arr == [0, 0, 1, 2, 2, 2]
  {
    SameElements([2, 2, 0, 1, 2, 0], [0, 0, 1, 2, 2, 2]);
    SortedUnique(arr, [0, 0, 1, 2, 2, 2]);
  }

  /** Two arrays of flags with the same number of each flag hold the same
      elements; the second is sorted when its neighbours are ordered. */
  lemma SameElements(a: seq<int>, b: seq<int>)
    requires forall k :: 0 <= k < |a| ==> IsFlag(a[k])
    requires forall k :: 0 <= k < |b| ==> IsFlag(b[k])
    requires multiset(a)[0] == multiset(b)[0]
    requires multiset(a)[1] == multiset(b)[1]
    requires multiset(a)[2] == multiset(b)[2]
    requires forall i :: 0 <= i < |b| - 1 ==> b[i] <= b[i + 1]
    ensures multiset(a) == multiset(b)
    ensures Sorted(b)
  {
    AdjacentSorted(b);
    forall x
      ensures multiset(a)[x] == multiset(b)[x]
    {
      if !IsFlag(x) {
        assert x !in a;
        assert x !in b;
      }
    }
  }
}
