/** The largest sum of a contiguous subarray of size `k`, by recomputing every
    window and by sliding one running sum. Both start from 0, so a result is
    never negative: an array whose every window sums below 0 (or that has no
    window of size `k` at all) yields 0. */
module MaxSumSubarray {
  import opened Seqs

  /** `r` is the largest window sum of size `k`, or 0 when that is larger or
      when there is no window. */
  ghost predicate IsMaxWindowSum(arr: seq<int>, k: nat, r: int) {
    && r >= 0
    && (forall i :: 0 <= i <= |arr| - k ==> WindowSum(arr, i, k) <= r)
    && (r == 0 || exists i :: 0 <= i <= |arr| - k && WindowSum(arr, i, k) == r)
  }

  /** `sum(arr[i:i+k])` for a window that fits. */
  function WindowSum(arr: seq<int>, i: nat, k: nat): int
    requires i + k <= |arr|
  {
    Sum(arr[i..i + k])
  }

  /** The description pins the value down: at most one result meets it, so
      both versions compute the same value. */
  lemma MaxWindowSumUnique(arr: seq<int>, k: nat, r1: int, r2: int)
    requires IsMaxWindowSum(arr, k, r1) && IsMaxWindowSum(arr, k, r2)
    ensures r1 == r2
  {
    assert r1 <= r2 by {
      if r1 != 0 {
        var i :| 0 <= i <= |arr| - k && WindowSum(arr, i, k) == r1;
      }
    }
    assert r2 <= r1 by {
      if r2 != 0 {
        var i :| 0 <= i <= |arr| - k && WindowSum(arr, i, k) == r2;
      }
    }
  }

  /** `max_subarray_of_size_k`: sums every window of size `k` afresh. */
  method MaxSubarrayOfSizeK(arr: seq<int>, k: nat) returns (maxVal: int)
    requires k >= 1
    ensures IsMaxWindowSum(arr, k, maxVal)
  {
    maxVal := 0;
    var i := 0;
    while i < |arr| - k + 1
      invariant 0 <= i <= Max(|arr| - k + 1, 0)
      invariant maxVal >= 0
      invariant forall i' :: 0 <= i' < i ==> WindowSum(arr, i', k) <= maxVal
      invariant maxVal == 0 || exists i' :: 0 <= i' < i && WindowSum(arr, i', k) == maxVal
    {
      var windowSum := WindowSum(arr, i, k);
      maxVal := Max(windowSum, maxVal);
      i := i + 1;
    }
  }

  /** `sol_max_subarray_of_size_k2`: one running sum, adding the element that
      enters and subtracting the one that leaves. */
  method SlidingMaxSum(arr: seq<int>, k: nat) returns (maxSum: int)
    requires k >= 1
    ensures IsMaxWindowSum(arr, k, maxSum)
  {
    maxSum := 0;
    var windowSum := 0;
    var windowStart := 0;
    for windowEnd := 0 to |arr|
      invariant windowStart == Max(windowEnd - k + 1, 0)
      invariant windowSum == Sum(arr[windowStart..windowEnd])
      invariant maxSum >= 0
      invariant forall i :: 0 <= i && i + k <= windowEnd ==> WindowSum(arr, i, k) <= maxSum
      invariant maxSum == 0 || exists i :: 0 <= i && i + k <= windowEnd && WindowSum(arr, i, k) == maxSum
    {
      SumExtend(arr, windowStart, windowEnd);
      windowSum := windowSum + arr[windowEnd];
      if windowEnd >= k - 1 {
        assert windowStart + k == windowEnd + 1;
        assert WindowSum(arr, windowStart, k) == windowSum;
        maxSum := Max(windowSum, maxSum);
        SumShrink(arr, windowStart, windowEnd + 1);
        windowSum := windowSum - arr[windowStart];
        windowStart := windowStart + 1;
      }
    }
  }

  /** A window of two, added up. */
  lemma WindowTwo(arr: seq<int>, i: nat)
    requires i + 2 <= |arr|
    ensures WindowSum(arr, i, 2) == arr[i] + arr[i + 1]
  {
    assert arr[i..i + 2] == [arr[i], arr[i + 1]];
    SumTwo(arr[i], arr[i + 1]);
  }

  /** A window of three, added up. */
  lemma WindowThree(arr: seq<int>, i: nat)
    requires i + 3 <= |arr|
    ensures WindowSum(arr, i, 3) == arr[i] + arr[i + 1] + arr[i + 2]
  {
    assert arr[i..i + 3] == [arr[i], arr[i + 1], arr[i + 2]];
    SumThree(arr[i], arr[i + 1], arr[i + 2]);
  }

  /** `max_subarray_of_size_k([2, 1, 5, 1, 3, 2], 3) == 9`. */
  lemma ExampleOne(r: int)
    requires IsMaxWindowSum([2, 1, 5, 1, 3, 2], 3, r)
    ensures r == 9
  {
    var arr := [2, 1, 5, 1, 3, 2];
    WindowThree(arr, 0);
    WindowThree(arr, 1);
    WindowThree(arr, 2);
    WindowThree(arr, 3);
    assert IsMaxWindowSum(arr, 3, 9);
    MaxWindowSumUnique(arr, 3, r, 9);
  }

  /** `max_subarray_of_size_k([2, 3, 4, 1, 5], 2) == 7`. */
  lemma ExampleTwo(r: int)
    requires IsMaxWindowSum([2, 3, 4, 1, 5], 2, r)
    ensures r == 7
  {
    var arr := [2, 3, 4, 1, 5];
    WindowTwo(arr, 0);
    WindowTwo(arr, 1);
    WindowTwo(arr, 2);
    WindowTwo(arr, 3);
    assert IsMaxWindowSum(arr, 2, 7);
    MaxWindowSumUnique(arr, 2, r, 7);
  }
}
