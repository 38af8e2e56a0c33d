/** `three_sum_smaller` and `sol_three_sum_smaller`: count the triplets of
    positions whose sum is below the target. Both sort the list in place;
    the sorted arrangement is returned alongside the answer. For each first
    position they close in from both ends: when the sum with `low` and `high`
    is below the target, so is the sum with `low` and every third position up
    to `high`. The first function lists those triplets and returns how many
    it listed; the second adds `high - low` directly. */
module ThreeSumSmaller {
  import opened Seqs
  import opened Triples

  /** The number of third positions `k` in `[lo, hi]` completing `(i, j)`
      below the target. */
  function CountThird(a: seq<int>, target: int, i: int, j: int, lo: int, hi: int): nat
    requires 0 <= i < j < lo && hi < |a|
    decreases hi - lo
  {
    if hi < lo then 0
    else CountThird(a, target, i, j, lo, hi - 1) + (if TripleSum(a, i, j, hi) < target then 1 else 0)
  }

  /** The number of pairs `low <= j < k <= high` completing `i` below the
      target. */
  function CountPairs(a: seq<int>, target: int, i: int, low: int, high: int): nat
    requires 0 <= i < low && high < |a|
    decreases high - low
  {
    if low >= high then 0
    else CountThird(a, target, i, low, low + 1, high) + CountPairs(a, target, i, low + 1, high)
  }

  /** The number of triplets `i < j < k` with `i < m` whose sum is below the
      target. */
  function CountTriples(a: seq<int>, target: int, m: nat): nat
    requires m <= |a|
  {
    if m == 0 then 0 else CountTriples(a, target, m - 1) + CountPairs(a, target, m - 1, m, |a| - 1)
  }

  /** Every third position in `(low, high]` completes `(i, low)` below the
      target when `high` does: the values are sorted. */
  lemma {:induction false} AllThird(a: seq<int>, target: int, i: int, low: int, hi: int, high: int)
    requires Sorted(a)
    requires 0 <= i < low < high < |a| && low <= hi <= high
    requires TripleSum(a, i, low, high) < target
    ensures CountThird(a, target, i, low, low + 1, hi) == hi - low
    decreases hi - low
  {
    if hi > low {
      AllThird(a, target, i, low, hi - 1, high);
      assert a[hi] <= a[high];
    }
  }

  /** A third position `high` that no `j` in `[low, high)` completes below
      the target can be dropped from the count. */
  lemma {:induction false} DropHigh(a: seq<int>, target: int, i: int, low: int, high: int)
    requires 0 <= i < low && low <= high < |a|
    requires forall j :: low <= j < high ==> TripleSum(a, i, j, high) >= target
    ensures CountPairs(a, target, i, low, high) == CountPairs(a, target, i, low, high - 1)
    decreases high - low
  {
    if low < high {
      DropHigh(a, target, i, low + 1, high);
      if low + 1 <= high - 1 {
        assert CountThird(a, target, i, low, low + 1, high) == CountThird(a, target, i, low, low + 1, high - 1);
      } else {
        assert CountThird(a, target, i, low, low + 1, high) == 0;
      }
    }
  }

  /** On sorted values a sum at or above the target with `low` rules out
      `high` with every `j` from `low` on. */
  lemma RuledOutHigh(a: seq<int>, target: int, i: int, low: int, high: int)
    requires Sorted(a)
    requires 0 <= i < low < high < |a|
    requires TripleSum(a, i, low, high) >= target
    ensures CountPairs(a, target, i, low, high) == CountPairs(a, target, i, low, high - 1)
  {
    forall j | low <= j < high
      ensures TripleSum(a, i, j, high) >= target
    {
      assert a[low] <= a[j];
    }
    DropHigh(a, target, i, low, high);
  }

  /** On sorted values a sum below the target with `low` and `high` makes
      all `high - low` pairs `(low, k)`, `low < k <= high`, count. */
  lemma TakenLow(a: seq<int>, target: int, i: int, low: int, high: int)
    requires Sorted(a)
    requires 0 <= i < low < high < |a|
    requires TripleSum(a, i, low, high) < target
    ensures CountPairs(a, target, i, low, high) == high - low + CountPairs(a, target, i, low + 1, high)
  {
    AllThird(a, target, i, low, high, high);
  }

  /** `sol_three_sum_smaller(nums, target)`: the number of triplets of
      positions of the sorted list whose sum is below the target. A list of
      fewer than three numbers answers 0 and is left as it is. */
  method SolThreeSumSmaller(nums: seq<int>, target: int) returns (sorted: seq<int>, count: int)
    ensures |nums| < 3 ==> sorted == nums && count == 0
    ensures |nums| >= 3 ==> sorted == SortInts(nums)
    ensures count == CountTriples(SortInts(nums), target, |nums|)
  {
    if |nums| < 3 {
      NoTriples(SortInts(nums), target, |nums|);
      return nums, 0;
    }
    count := 0;
    sorted := SortInts(nums);
    for i := 0 to |sorted|
      invariant count == CountTriples(sorted, target, i)
    {
      var c := CountForFirst(sorted, target, i);
      count := count + c;
    }
  }

  /** The inner loop of `sol_three_sum_smaller` for first position `i`. */
  method CountForFirst(a: seq<int>, target: int, i: int) returns (count: int)
    requires Sorted(a) && 0 <= i < |a|
    ensures count == CountPairs(a, target, i, i + 1, |a| - 1)
  {
    count := 0;
    var low, high := i + 1, |a| - 1;
    while low < high
      invariant i < low && high < |a| && low <= high + 1
      invariant count + CountPairs(a, target, i, low, high) == CountPairs(a, target, i, i + 1, |a| - 1)
      decreases high - low
    {
      if a[i] + a[low] + a[high] < target {
        TakenLow(a, target, i, low, high);
        count := count + high - low;
        low := low + 1;
      } else {
        RuledOutHigh(a, target, i, low, high);
        high := high - 1;
      }
    }
  }

  /** Fewer than three numbers hold no triplet. */
  lemma {:induction false} NoTriples(a: seq<int>, target: int, m: nat)
    requires |a| < 3 && m <= |a|
    ensures CountTriples(a, target, m) == 0
  {
    if m > 0 {
      NoTriples(a, target, m - 1);
    }
  }

  /** The values at a triplet of positions whose sum is below the target. */
  ghost predicate ListedBelow(a: seq<int>, target: int, t: seq<int>) {
    exists i, j, k :: IsTriple(a, i, j, k) && TripleSum(a, i, j, k) < target && t == [a[i], a[j], a[k]]
  }

  /** `three_sum_smaller(nums, target)`: the list of triplets it builds on the
      sorted list, and its length, which is the answer. Every listed triplet
      holds the values at three positions whose sum is below the target, and
      the length is `sol_three_sum_smaller`'s count. */
  method ThreeSumSmaller(nums: seq<int>, target: int) returns (sorted: seq<int>, result: seq<seq<int>>, count: int)
    ensures sorted == SortInts(nums)
    ensures forall t :: t in result ==> ListedBelow(sorted, target, t)
    ensures count == |result| == CountTriples(sorted, target, |nums|)
  {
    sorted := SortInts(nums);
    result := [];
    for i := 0 to |sorted|
      invariant |result| == CountTriples(sorted, target, i)
      invariant forall t :: t in result ==> ListedBelow(sorted, target, t)
    {
      var listed := ListForFirst(sorted, target, i);
      result := result + listed;
    }
    count := |result|;
  }

  /** The inner loop of `three_sum_smaller` for first position `i`. */
  method ListForFirst(a: seq<int>, target: int, i: int) returns (result: seq<seq<int>>)
    requires Sorted(a) && 0 <= i < |a|
    ensures |result| == CountPairs(a, target, i, i + 1, |a| - 1)
    ensures forall t :: t in result ==> ListedBelow(a, target, t)
  {
    result := [];
    var low, high := i + 1, |a| - 1;
    while low < high
      invariant i < low && high < |a| && low <= high + 1
      invariant |result| + CountPairs(a, target, i, low, high) == CountPairs(a, target, i, i + 1, |a| - 1)
      invariant forall t :: t in result ==> ListedBelow(a, target, t)
      decreases high - low
    {
      if a[i] + a[low] + a[high] < target {
        TakenLow(a, target, i, low, high);
        var listed := ListThirds(a, target, i, low, high);
        result := result + listed;
        low := low + 1;
      } else {
        RuledOutHigh(a, target, i, low, high);
        high := high - 1;
      }
    }
  }

  /** `for k in range(low + 1, high + 1): result.append([nums[i], nums[low], nums[k]])`. */
  method ListThirds(a: seq<int>, target: int, i: int, low: int, high: int) returns (listed: seq<seq<int>>)
    requires Sorted(a)
    requires 0 <= i < low < high < |a|
    requires TripleSum(a, i, low, high) < target
    ensures |listed| == high - low
    ensures forall t :: t in listed ==> ListedBelow(a, target, t)
  {
    listed := [];
    for k := low + 1 to high + 1
      invariant |listed| == k - (low + 1)
      invariant forall t :: t in listed ==> ListedBelow(a, target, t)
    {
      assert a[k] <= a[high];
      assert IsTriple(a, i, low, k) && TripleSum(a, i, low, k) < target;
      listed := listed + [[a[i], a[low], a[k]]];
    }
  }

  /** Both functions answer 2 on `[-2, 0, 1, 3]` with target 2: the triplets
      `[-2, 0, 1]` and `[-2, 0, 3]`. */
  lemma ExampleOne()
    ensures CountTriples([-2, 0, 1, 3], 2, 4) == 2
  {
    var a := [-2, 0, 1, 3];
    assert CountPairs(a, 2, 0, 1, 3) == 2;
    assert CountPairs(a, 2, 1, 2, 3) == 0;
  }

  /** Both answer 0 on `[]` and on `[0]`. */
  lemma ExampleTwo()
    ensures CountTriples([], 0, 0) == 0
    ensures CountTriples([0], 0, 1) == 0
  {
  }
}
