/** `three_sum_close_to_target`: sort, then for each first position (skipping
    a value equal to the previous one) close in on the rest from both ends,
    keeping the sum nearest the target and stopping at an exact hit. The
    running best starts as `math.inf`, modelled as `None`; it is still `None`
    at the end exactly when there are fewer than three numbers. */
module ThreeSumClose {
  import opened Seqs
  import opened Wrappers
  import opened Triples

  /** `abs(three_sum - target) < abs(closest_sum - target)`; every sum is
      closer than `math.inf`. */
  predicate Closer(sum: int, closest: Option<int>, target: int) {
    closest.None? || Abs(sum - target) < Abs(closest.value - target)
  }

  /** `closest` is a sum no farther from the target than `sum`. */
  ghost predicate AsClose(closest: Option<int>, target: int, sum: int) {
    closest.Some? && Abs(closest.value - target) <= Abs(sum - target)
  }

  /** `closest`, when present, is the sum of some triplet of `a`. */
  ghost predicate Attained(a: seq<int>, closest: Option<int>) {
    closest.Some? ==> exists i, j, k :: IsTriple(a, i, j, k) && TripleSum(a, i, j, k) == closest.value
  }

  /** `closest` is as close as every triplet whose first position is below `i0`. */
  ghost predicate CoveredBelow(a: seq<int>, target: int, closest: Option<int>, i0: int) {
    forall i, j, k :: IsTriple(a, i, j, k) && i < i0 ==> AsClose(closest, target, TripleSum(a, i, j, k))
  }

  /** The state after the inner loop: the best sum so far, and whether the
      function returned on an exact hit. */
  datatype Progress = Progress(closest: Option<int>, hit: bool)

  /** `while low < high:` for the first position `i`. */
  function Inner(a: seq<int>, target: int, i: int, low: int, high: int, closest: Option<int>): Progress
    requires 0 <= i < low && high < |a|
    decreases high - low
  {
    if low >= high then Progress(closest, false)
    else
      var threeSum := a[i] + a[low] + a[high];
      var closest' := if Closer(threeSum, closest, target) then Some(threeSum) else closest;
      if threeSum == target then Progress(Some(threeSum), true)
      else if threeSum < target then Inner(a, target, i, low + 1, high, closest')
      else Inner(a, target, i, low, high - 1, closest')
  }

  /** `for i in range(len(arr))` from position `i` on. */
  function Outer(a: seq<int>, target: int, i: nat, closest: Option<int>): Option<int>
    requires i <= |a|
    decreases |a| - i
  {
    if i == |a| then closest
    else if i > 0 && a[i] == a[i - 1] then Outer(a, target, i + 1, closest)
    else
      var p := Inner(a, target, i, i + 1, |a| - 1, closest);
      if p.hit then p.closest else Outer(a, target, i + 1, p.closest)
  }

  /** `three_sum_close_to_target(arr, target)`: the list as `arr.sort()`
      leaves it, and the closest sum. */
  function ThreeSumCloseToTarget(arr: seq<int>, target: int): (r: (seq<int>, Option<int>))
    ensures Sorted(r.0) && multiset(r.0) == multiset(arr)
  {
    var a := SortInts(arr);
    (a, Outer(a, target, 0, None))
  }

  /** The inner loop's best sum stays the sum of a triplet. */
  lemma {:induction false} InnerAttained(a: seq<int>, target: int, i: int, low: int, high: int, closest: Option<int>)
    requires 0 <= i < low && high < |a|
    requires Attained(a, closest)
    ensures Attained(a, Inner(a, target, i, low, high, closest).closest)
    decreases high - low
  {
    if low < high {
      var threeSum := TripleSum(a, i, low, high);
      var closest' := if Closer(threeSum, closest, target) then Some(threeSum) else closest;
      if threeSum < target {
        InnerAttained(a, target, i, low + 1, high, closest');
      } else if threeSum > target {
        InnerAttained(a, target, i, low, high - 1, closest');
      }
    }
  }

  /** The inner loop returns only on an exact hit, and never moves its best
      sum away from the target; once it has run a step it holds a sum. */
  lemma {:induction false} InnerNoFarther(a: seq<int>, target: int, i: int, low: int, high: int, closest: Option<int>)
    requires 0 <= i < low && high < |a|
    ensures var p := Inner(a, target, i, low, high, closest);
            && (p.hit ==> p.closest == Some(target))
            && (closest.Some? ==> AsClose(p.closest, target, closest.value))
            && (low < high ==> p.closest.Some?)
    decreases high - low
  {
    if low < high {
      var threeSum := TripleSum(a, i, low, high);
      var closest' := if Closer(threeSum, closest, target) then Some(threeSum) else closest;
      if threeSum < target {
        InnerNoFarther(a, target, i, low + 1, high, closest');
      } else if threeSum > target {
        InnerNoFarther(a, target, i, low, high - 1, closest');
      }
    }
  }

  /** On sorted numbers the inner loop ends as close as every triplet `(i, j, k)` with `low <= j < k <= high`: a sum
      below the target rules out `low` with every `k`, a sum above it rules
      out `high` with every `j`. */
  lemma {:induction false} InnerCovers(a: seq<int>, target: int, i: int, low: int, high: int, closest: Option<int>)
    requires Sorted(a)
    requires 0 <= i < low && high < |a|
    ensures var p := Inner(a, target, i, low, high, closest);
            forall j, k :: low <= j < k <= high ==> AsClose(p.closest, target, TripleSum(a, i, j, k))
    decreases high - low
  {
    if low < high {
      var threeSum := TripleSum(a, i, low, high);
      var closest' := if Closer(threeSum, closest, target) then Some(threeSum) else closest;
      if threeSum < target {
        InnerCovers(a, target, i, low + 1, high, closest');
        InnerNoFarther(a, target, i, low + 1, high, closest');
        CoversLow(a, target, i, low, high, Inner(a, target, i, low + 1, high, closest'));
      } else if threeSum > target {
        InnerCovers(a, target, i, low, high - 1, closest');
        InnerNoFarther(a, target, i, low, high - 1, closest');
        CoversHigh(a, target, i, low, high, Inner(a, target, i, low, high - 1, closest'));
      }
    }
  }

  lemma CoversLow(a: seq<int>, target: int, i: int, low: int, high: int, p: Progress)
    requires Sorted(a)
    requires 0 <= i < low < high < |a|
    requires TripleSum(a, i, low, high) < target
    requires AsClose(p.closest, target, TripleSum(a, i, low, high))
    ensures forall k :: low < k <= high ==> AsClose(p.closest, target, TripleSum(a, i, low, k))
  {
  }

  lemma CoversHigh(a: seq<int>, target: int, i: int, low: int, high: int, p: Progress)
    requires Sorted(a)
    requires 0 <= i < low < high < |a|
    requires TripleSum(a, i, low, high) > target
    requires AsClose(p.closest, target, TripleSum(a, i, low, high))
    ensures forall j :: low <= j < high ==> AsClose(p.closest, target, TripleSum(a, i, j, high))
  {
  }

  /** The outer loop keeps its best sum the sum of a triplet. */
  lemma {:induction false} OuterAttained(a: seq<int>, target: int, i: nat, closest: Option<int>)
    requires i <= |a|
    requires Attained(a, closest)
    ensures Attained(a, Outer(a, target, i, closest))
    decreases |a| - i
  {
    if i < |a| {
      if i > 0 && a[i] == a[i - 1] {
        OuterAttained(a, target, i + 1, closest);
      } else {
        InnerAttained(a, target, i, i + 1, |a| - 1, closest);
        var p := Inner(a, target, i, i + 1, |a| - 1, closest);
        if !p.hit {
          OuterAttained(a, target, i + 1, p.closest);
        }
      }
    }
  }

  /** The outer loop ends as close as every triplet, given a best sum as
      close as every triplet starting before `i`. A skipped first position
      repeats the previous value, so its triplets have the sums of triplets
      already covered. */
  lemma {:induction false} OuterCovers(a: seq<int>, target: int, i: nat, closest: Option<int>)
    requires Sorted(a) && i <= |a|
    requires CoveredBelow(a, target, closest, i)
    ensures CoveredBelow(a, target, Outer(a, target, i, closest), |a|)
    decreases |a| - i
  {
    if i < |a| {
      if i > 0 && a[i] == a[i - 1] {
        SkipCovered(a, target, i, closest);
        OuterCovers(a, target, i + 1, closest);
      } else {
        var p := Inner(a, target, i, i + 1, |a| - 1, closest);
        InnerNoFarther(a, target, i, i + 1, |a| - 1, closest);
        InnerCovers(a, target, i, i + 1, |a| - 1, closest);
        if !p.hit {
          StepCovered(a, target, i, closest, p.closest);
          OuterCovers(a, target, i + 1, p.closest);
        }
      }
    }
  }

  lemma SkipCovered(a: seq<int>, target: int, i: int, closest: Option<int>)
    requires 0 < i < |a| && a[i] == a[i - 1]
    requires CoveredBelow(a, target, closest, i)
    ensures CoveredBelow(a, target, closest, i + 1)
  {
    forall i', j, k | IsTriple(a, i', j, k) && i' < i + 1
      ensures AsClose(closest, target, TripleSum(a, i', j, k))
    {
      if i' == i {
        assert TripleSum(a, i, j, k) == TripleSum(a, i - 1, j, k);
      }
    }
  }

  lemma StepCovered(a: seq<int>, target: int, i: int, closest: Option<int>, closest': Option<int>)
    requires 0 <= i < |a|
    requires CoveredBelow(a, target, closest, i)
    requires closest.Some? ==> AsClose(closest', target, closest.value)
    requires forall j, k :: i + 1 <= j < k <= |a| - 1 ==> AsClose(closest', target, TripleSum(a, i, j, k))
    ensures CoveredBelow(a, target, closest', i + 1)
  {
    forall i', j, k | IsTriple(a, i', j, k) && i' < i + 1
      ensures AsClose(closest', target, TripleSum(a, i', j, k))
    {
      if i' < i {
        assert AsClose(closest, target, TripleSum(a, i', j, k));
      }
    }
  }

  /** With fewer than three numbers no inner loop runs. */
  lemma {:induction false} OuterNone(a: seq<int>, target: int, i: nat)
    requires |a| < 3 && i <= |a|
    ensures Outer(a, target, i, None) == None
    decreases |a| - i
  {
    if i < |a| {
      OuterNone(a, target, i + 1);
    }
  }

  /** `three_sum_close_to_target(arr, target)` is `math.inf` exactly when
      `arr` has fewer than three numbers; otherwise it is the sum of a
      triplet of positions of `arr`, as close to the target as every such
      sum, and the target itself when some triplet adds up to it. */
  lemma ClosestIsOptimal(arr: seq<int>, target: int)
    ensures ThreeSumCloseToTarget(arr, target).1.None? <==> |arr| < 3
    ensures var r := ThreeSumCloseToTarget(arr, target).1;
            r.Some? ==> exists i, j, k :: IsTriple(arr, i, j, k) && TripleSum(arr, i, j, k) == r.value
    ensures forall i, j, k :: IsTriple(arr, i, j, k) ==>
              AsClose(ThreeSumCloseToTarget(arr, target).1, target, TripleSum(arr, i, j, k))
    ensures (exists i, j, k :: IsTriple(arr, i, j, k) && TripleSum(arr, i, j, k) == target) ==>
              ThreeSumCloseToTarget(arr, target).1 == Some(target)
  {
    var a := SortInts(arr);
    var r := ThreeSumCloseToTarget(arr, target).1;
    OuterAttained(a, target, 0, None);
    OuterCovers(a, target, 0, None);
    if |arr| < 3 {
      OuterNone(a, target, 0);
    } else {
      assert IsTriple(a, 0, 1, 2);
    }
    if r.Some? {
      var i, j, k :| IsTriple(a, i, j, k) && TripleSum(a, i, j, k) == r.value;
      TripleTransfer(a, arr, i, j, k);
    }
    forall i, j, k | IsTriple(arr, i, j, k)
      ensures AsClose(r, target, TripleSum(arr, i, j, k))
    {
      TripleTransfer(arr, a, i, j, k);
    }
  }

  /** The function runs the scan on the sorted arrangement of its input:
      any sorted sequence with the same elements. */
  lemma SortedArrangement(arr: seq<int>, a: seq<int>, target: int)
    requires Sorted(a) && multiset(a) == multiset(arr)
    ensures ThreeSumCloseToTarget(arr, target).0 == a
    ensures ThreeSumCloseToTarget(arr, target).1 == Outer(a, target, 0, None)
  {
    SortedUnique(SortInts(arr), a);
  }

  /** `three_sum_close_to_target([-2, 0, 1, 2], 2)` is 1: the sums 1 and 3
      are equally close, and 1 is met first. */
  lemma ExampleOne(a: seq<int>)
    requires Sorted(a) && multiset(a) == multiset([-2, 0, 1, 2])
    ensures Outer(a, 2, 0, None) == Some(1)
  {
    AdjacentSorted([-2, 0, 1, 2]);
    SortedUnique(a, [-2, 0, 1, 2]);
    ExampleOneRun();
  }

  lemma ExampleOneRun()
    ensures Outer([-2, 0, 1, 2], 2, 0, None) == Some(1)
  {
    var a := [-2, 0, 1, 2];
    assert Inner(a, 2, 0, 1, 3, None) == Progress(Some(1), false);
    assert Inner(a, 2, 1, 2, 3, Some(1)) == Progress(Some(1), false);
    assert Outer(a, 2, 2, Some(1)) == Some(1);
  }

  /** `three_sum_close_to_target([-3, -1, 1, 2], 1)` is 0. */
  lemma ExampleTwo(a: seq<int>)
    requires Sorted(a) && multiset(a) == multiset([-3, -1, 1, 2])
    ensures Outer(a, 1, 0, None) == Some(0)
  {
    AdjacentSorted([-3, -1, 1, 2]);
    SortedUnique(a, [-3, -1, 1, 2]);
    ExampleTwoRun();
  }

  lemma ExampleTwoRun()
    ensures Outer([-3, -1, 1, 2], 1, 0, None) == Some(0)
  {
    var a := [-3, -1, 1, 2];
    assert Inner(a, 1, 0, 1, 3, None) == Progress(Some(0), false);
    assert Inner(a, 1, 1, 2, 3, Some(0)) == Progress(Some(0), false);
    assert Outer(a, 1, 2, Some(0)) == Some(0);
  }

  /** `three_sum_close_to_target([1, 0, 1, 1], 100)` is 3; the input is
      sorted to `[0, 1, 1, 1]` first. */
  lemma ExampleThree(a: seq<int>)
    requires Sorted(a) && multiset(a) == multiset([1, 0, 1, 1])
    ensures a == [0, 1, 1, 1]
    ensures Outer(a, 100, 0, None) == Some(3)
  {
    AdjacentSorted([0, 1, 1, 1]);
    OneZeroMultiset();
    SortedUnique(a, [0, 1, 1, 1]);
    ExampleThreeRun();
  }

  lemma ExampleThreeRun()
    ensures Outer([0, 1, 1, 1], 100, 0, None) == Some(3)
  {
    var a := [0, 1, 1, 1];
    assert Inner(a, 100, 0, 1, 3, None) == Progress(Some(2), false);
    assert Inner(a, 100, 1, 2, 3, Some(2)) == Progress(Some(3), false);
    assert Outer(a, 100, 2, Some(3)) == Some(3);
  }

  lemma OneZeroMultiset()
    ensures multiset([1, 0, 1, 1]) == multiset([0, 1, 1, 1])
  {
    assert multiset([1, 0, 1, 1]) == multiset{0, 1, 1, 1};
  }
}
