/** The length of the shortest contiguous subarray of positive integers whose
    sum reaches a positive threshold `s`, by a window that grows on the right
    and shrinks on the left while its sum is at least `s`. */
module SmallestSubarray {
  import opened Seqs
  import opened Wrappers

  /** Some window `arr[i..j]` sums to at least `s`. */
  ghost predicate Qualifying(arr: seq<int>, s: int) {
    exists i, j :: 0 <= i <= j <= |arr| && Sum(arr[i..j]) >= s
  }

  /** `m` is the length of a window summing to at least `s`, and no such
      window is shorter. */
  ghost predicate Shortest(arr: seq<int>, s: int, m: int) {
    && (exists i, j :: 0 <= i <= j <= |arr| && Sum(arr[i..j]) >= s && j - i == m)
    && (forall i, j :: 0 <= i <= j <= |arr| && Sum(arr[i..j]) >= s ==> m <= j - i)
  }

  /** At most one length is the shortest. */
  lemma ShortestUnique(arr: seq<int>, s: int, m1: int, m2: int)
    requires Shortest(arr, s, m1) && Shortest(arr, s, m2)
    ensures m1 == m2
  {
    var i1, j1 :| 0 <= i1 <= j1 <= |arr| && Sum(arr[i1..j1]) >= s && j1 - i1 == m1;
    var i2, j2 :| 0 <= i2 <= j2 <= |arr| && Sum(arr[i2..j2]) >= s && j2 - i2 == m2;
  }

  /** When the window `arr[start..end]` sums below `s`, no window ending at
      `end` that starts at or after `start` reaches `s`. */
  lemma NoneFromStart(arr: seq<int>, s: int, start: int, end: int)
    requires AllPositive(arr)
    requires 0 <= start <= end <= |arr|
    requires Sum(arr[start..end]) < s
    ensures forall i :: start <= i <= end ==> Sum(arr[i..end]) < s
  {
    forall i | start <= i <= end
      ensures Sum(arr[i..end]) < s
    {
      SuffixSumLe(arr, start, i, end);
    }
  }

  /** Every window ending at `end` that starts before `start` still reaches
      `s` after the window grows by `arr[end]`. */
  lemma GrowKeepsQualifying(arr: seq<int>, s: int, start: int, end: int, next: int)
    requires AllPositive(arr)
    requires 0 <= start <= end < |arr| && next == end + 1
    requires forall i :: 0 <= i < start ==> Sum(arr[i..end]) >= s
    ensures forall i :: 0 <= i < start ==> Sum(arr[i..next]) >= s
  {
    forall i | 0 <= i < start
      ensures Sum(arr[i..next]) >= s
    {
      SumExtend(arr, i, end);
    }
  }

  /** A lower bound `m` on the qualifying windows ending before `e` extends to
      those ending at `e`, once it covers the starts before `start` and no
      start from `start` on qualifies. */
  lemma ExtendBound(arr: seq<int>, s: int, m: int, start: int, e: int)
    requires 0 <= start <= e <= |arr|
    requires forall i, j :: 0 <= i <= j < e && Sum(arr[i..j]) >= s ==> m <= j - i
    requires forall i :: 0 <= i < start && Sum(arr[i..e]) >= s ==> m <= e - i
    requires forall i :: start <= i <= e ==> Sum(arr[i..e]) < s
    ensures forall i, j :: 0 <= i <= j <= e && Sum(arr[i..j]) >= s ==> m <= j - i
  {
  }

  /** Python's `min(best, w)` where `best` may still be `math.inf` (`None`). */
  function MinInf(best: Option<int>, w: int): (r: int)
    ensures r <= w
    ensures best.Some? ==> r <= best.value
    ensures r == w || (best.Some? && r == best.value)
  {
    if best.Some? then Min(best.value, w) else w
  }

  /** The loop `while window_sum >= s` shared by both versions: it records the
      window length and drops the window's first element until the sum falls
      below `s`. Every start it passes reaches `s`; `best` only shrinks, and a
      changed `best` is the length of one of the windows it passed. */
  method ShrinkWhileReaching(arr: seq<int>, s: int, start0: int, e: int, sum0: int, best0: Option<int>)
    returns (start: int, sum: int, best: Option<int>)
    requires AllPositive(arr) && s > 0
    requires 0 <= start0 < e <= |arr|
    requires sum0 == Sum(arr[start0..e])
    requires forall i :: 0 <= i < start0 ==> Sum(arr[i..e]) >= s
    requires best0.Some? ==> forall i :: 0 <= i < start0 && Sum(arr[i..e]) >= s ==> best0.value <= e - i
    ensures start0 <= start <= e
    ensures sum == Sum(arr[start..e]) && sum < s
    ensures forall i :: 0 <= i < start ==> Sum(arr[i..e]) >= s
    ensures best.Some? ==> forall i :: 0 <= i < start && Sum(arr[i..e]) >= s ==> best.value <= e - i
    ensures best0.Some? ==> best.Some? && best.value <= best0.value
    ensures start == start0 ==> best == best0
    ensures start > start0 ==> best.Some?
    ensures best.Some? ==> best == best0 || exists i :: start0 <= i < start && Sum(arr[i..e]) >= s && e - i == best.value
  {
    start, sum, best := start0, sum0, best0;
    while sum >= s
      invariant start0 <= start <= e
      invariant sum == Sum(arr[start..e])
      invariant forall i :: 0 <= i < start ==> Sum(arr[i..e]) >= s
      invariant best.Some? ==> forall i :: 0 <= i < start && Sum(arr[i..e]) >= s ==> best.value <= e - i
      invariant best0.Some? ==> best.Some? && best.value <= best0.value
      invariant start == start0 ==> best == best0
      invariant start > start0 ==> best.Some?
      invariant best.Some? ==> best == best0 || exists i :: start0 <= i < start && Sum(arr[i..e]) >= s && e - i == best.value
      decreases e - start
    {
      best := Some(MinInf(best, e - start));
      SumShrink(arr, start, e);
      sum := sum - arr[start];
      start := start + 1;
    }
  }

  /** `smallest_subarray_with_given_sum`: the answer starts at `len(arr)`, so
      an array with no qualifying window yields `len(arr)`. */
  method SmallestSubarrayWithGivenSum(arr: seq<int>, s: int) returns (length: int)
    requires AllPositive(arr) && s > 0
    ensures Qualifying(arr, s) ==> Shortest(arr, s, length)
    ensures !Qualifying(arr, s) ==> length == |arr|
  {
    var startWindow := 0;
    var sumWindow := 0;
    length := |arr|;
    for endWindow := 0 to |arr|
      invariant 0 <= startWindow <= endWindow
      invariant sumWindow == Sum(arr[startWindow..endWindow]) && sumWindow < s
      invariant forall i :: 0 <= i < startWindow ==> Sum(arr[i..endWindow]) >= s
      invariant length <= |arr|
      invariant forall i, j :: 0 <= i <= j <= endWindow && Sum(arr[i..j]) >= s ==> length <= j - i
      invariant length == |arr| || exists i, j :: 0 <= i <= j <= endWindow && Sum(arr[i..j]) >= s && j - i == length
    {
      var e := endWindow + 1;
      SumExtend(arr, startWindow, endWindow);
      GrowKeepsQualifying(arr, s, startWindow, endWindow, e);
      forall i | 0 <= i < startWindow && Sum(arr[i..e]) >= s
        ensures length <= e - i
      {
        assert Sum(arr[i..endWindow]) >= s;
      }
      var best;
      startWindow, sumWindow, best := ShrinkWhileReaching(arr, s, startWindow, e, sumWindow + arr[endWindow], Some(length));
      length := best.value;
      NoneFromStart(arr, s, startWindow, e);
      ExtendBound(arr, s, length, startWindow, e);
    }
  }

  /** `sol_smallest_subarray_with_given_sum`: the answer starts at infinity
      (`None` here) and an array with no qualifying window yields 0, as the
      problem statement asks. */
  method SolSmallestSubarrayWithGivenSum(arr: seq<int>, s: int) returns (length: int)
    requires AllPositive(arr) && s > 0
    ensures Qualifying(arr, s) ==> Shortest(arr, s, length)
    ensures !Qualifying(arr, s) ==> length == 0
  {
    var windowSum := 0;
    var minLength: Option<int> := None;
    var windowStart := 0;
    for windowEnd := 0 to |arr|
      invariant 0 <= windowStart <= windowEnd
      invariant windowSum == Sum(arr[windowStart..windowEnd]) && windowSum < s
      invariant forall i :: 0 <= i < windowStart ==> Sum(arr[i..windowEnd]) >= s
      invariant minLength.None? ==> windowStart == 0
      invariant minLength.None? ==> forall i, j :: 0 <= i <= j <= windowEnd ==> Sum(arr[i..j]) < s
      invariant minLength.Some? ==> forall i, j :: 0 <= i <= j <= windowEnd && Sum(arr[i..j]) >= s ==> minLength.value <= j - i
      invariant minLength.Some? ==> exists i, j :: 0 <= i <= j <= windowEnd && Sum(arr[i..j]) >= s && j - i == minLength.value
    {
      var e := windowEnd + 1;
      SumExtend(arr, windowStart, windowEnd);
      GrowKeepsQualifying(arr, s, windowStart, windowEnd, e);
      forall i | 0 <= i < windowStart && Sum(arr[i..e]) >= s && minLength.Some?
        ensures minLength.value <= e - i
      {
        assert Sum(arr[i..windowEnd]) >= s;
      }
      windowStart, windowSum, minLength := ShrinkWhileReaching(arr, s, windowStart, e, windowSum + arr[windowEnd], minLength);
      NoneFromStart(arr, s, windowStart, e);
      if minLength.Some? {
        ExtendBound(arr, s, minLength.value, windowStart, e);
      }
    }
    if minLength.None? {
      return 0;
    }
    return minLength.value;
  }

  /** `[2, 1, 5, 2, 3, 2]` with `S = 7`: the shortest window is `[5, 2]`. */
  lemma ExampleOne(m: int)
    requires Shortest([2, 1, 5, 2, 3, 2], 7, m)
    ensures m == 2
  {
    var arr := [2, 1, 5, 2, 3, 2];
    forall i, j | 0 <= i <= j <= |arr| && j - i < 2
      ensures Sum(arr[i..j]) < 7
    {
      if j == i + 1 { SumSingle(arr, i); } else { assert arr[i..j] == []; }
    }
    assert arr[2..4] == [5, 2];
    SumTwo(5, 2);
    ShortestUnique(arr, 7, m, 2);
  }

  /** `[2, 1, 5, 2, 8]` with `S = 8`: the single element `8` is enough. */
  lemma ExampleTwo(m: int)
    requires Shortest([2, 1, 5, 2, 8], 8, m)
    ensures m == 1
  {
    var arr := [2, 1, 5, 2, 8];
    forall i, j | 0 <= i <= j <= |arr| && j - i < 1
      ensures Sum(arr[i..j]) < 8
    {
      assert arr[i..j] == [];
    }
    SumSingle(arr, 4);
    ShortestUnique(arr, 8, m, 1);
  }

  /** `[3, 4, 1, 1, 6]` with `S = 8`: the shortest window is `[3, 4, 1]`. */
  lemma ExampleThree(m: int)
    requires Shortest([3, 4, 1, 1, 6], 8, m)
    ensures m == 3
  {
    var arr := [3, 4, 1, 1, 6];
    forall i, j | 0 <= i <= j <= |arr| && j - i < 3
      ensures Sum(arr[i..j]) < 8
    {
      if j == i + 2 {
        assert arr[i..j] == [arr[i], arr[i + 1]];
        SumTwo(arr[i], arr[i + 1]);
      } else if j == i + 1 {
        SumSingle(arr, i);
      } else {
        assert arr[i..j] == [];
      }
    }
    assert arr[0..3] == [3, 4, 1];
    SumThree(3, 4, 1);
    ShortestUnique(arr, 8, m, 3);
  }

  /** The first version breaks the "return 0" promise: with `[1, 1]` and
      `S = 5` nothing qualifies, yet it answers 2. */
  lemma NoWindowGivesLength()
    ensures !Qualifying([1, 1], 5)
  {
    var arr := [1, 1];
    forall i, j | 0 <= i <= j <= |arr|
      ensures Sum(arr[i..j]) < 5
    {
      SuffixSumLe(arr, 0, i, j);
      SuffixSumLe(arr, 0, 0, 2);
      assert Sum(arr[0..j]) <= Sum(arr[0..2]) by {
        assert arr[0..2] == arr;
        if j < 2 {
          assert arr[0..2] == arr[0..j] + arr[j..2];
          SumAppend(arr[0..j], arr[j..2]);
          SumOfPositives(arr[j..2]);
        }
      }
      assert arr[0..2] == [1, 1];
      SumTwo(1, 1);
    }
  }

  /** On `[1, 1]` with `S = 5` the first version answers 2 where the problem
      statement, and the second version, answer 0. */
  method NoWindowAnswers() returns (asWritten: int, intended: int)
    ensures asWritten == 2 && intended == 0
  {
    NoWindowGivesLength();
    asWritten := SmallestSubarrayWithGivenSum([1, 1], 5);
    intended := SolSmallestSubarrayWithGivenSum([1, 1], 5);
  }
}
