/** `sorted_squares` (square, then sort) and `sol_sorted_squares`, which fills
    the result from the back with the larger of the squares at the two ends. */
module SortedSquares {
  import opened Seqs

  /** `[i**2 for i in nums]`. */
  function Squares(nums: seq<int>): (r: seq<int>)
    ensures |r| == |nums|
    ensures forall k :: 0 <= k < |nums| ==> r[k] == nums[k] * nums[k]
  {
    seq(|nums|, k requires 0 <= k < |nums| => nums[k] * nums[k])
  }

  /** `sorted_squares(nums)`: the squares of `nums` in non-decreasing order. */
  function SortedSquares(nums: seq<int>): (r: seq<int>)
    ensures Sorted(r)
    ensures multiset(r) == multiset(Squares(nums))
  {
    SortInts(Squares(nums))
  }

  /** A larger magnitude has a larger square. */
  lemma SquareMonotone(a: int, b: int)
    requires Abs(a) <= Abs(b)
    ensures a * a <= b * b
  {
    assert a * a == Abs(a) * Abs(a);
    assert b * b == Abs(b) * Abs(b);
    assert Abs(a) * Abs(a) <= Abs(a) * Abs(b) <= Abs(b) * Abs(b);
  }

  /** In a sorted window the largest square sits at one of the two ends. */
  lemma EndsBound(nums: seq<int>, left: int, right: int, k: int)
    requires Sorted(nums)
    requires 0 <= left <= k <= right < |nums|
    ensures nums[k] * nums[k] <= Max(nums[left] * nums[left], nums[right] * nums[right])
  {
    if nums[k] >= 0 {
      SquareMonotone(nums[k], nums[right]);
    } else {
      SquareMonotone(nums[k], nums[left]);
    }
  }

  /** The unconsumed window and the filled tail together hold every square. */
  ghost predicate Accounted(nums: seq<int>, result: seq<int>, i: int, left: int, right: int)
    requires |result| == |nums|
    requires -1 <= i < |nums| && 0 <= left <= right + 1 <= |nums|
  {
    multiset(result[i + 1..]) + multiset(Squares(nums)[left..right + 1]) == multiset(Squares(nums))
  }

  /** For sorted input: the filled tail is sorted and bounds every square
      still in the window. */
  ghost predicate Ordered(nums: seq<int>, result: seq<int>, i: int, left: int, right: int)
    requires |result| == |nums|
    requires -1 <= i < |nums| && 0 <= left <= right + 1 <= |nums|
  {
    && (forall p, q :: i < p <= q < |nums| ==> result[p] <= result[q])
    && (forall p, k :: i < p < |nums| && left <= k <= right ==> nums[k] * nums[k] <= result[p])
  }

  /** `sol_sorted_squares(nums)`: always a rearrangement of the squares; for
      sorted input, the same answer as `sorted_squares`. */
  method SolSortedSquares(nums: seq<int>) returns (result: seq<int>)
    ensures |result| == |nums|
    ensures multiset(result) == multiset(Squares(nums))
    ensures Sorted(nums) ==> result == SortedSquares(nums)
  {
    var n := |nums|;
    result := seq(n, _ => 0);
    var left, right := 0, n - 1;
    var i := n - 1;
    assert Squares(nums)[0..n] == Squares(nums);
    while i >= 0
      invariant -1 <= i < n && |result| == n
      invariant 0 <= left <= right + 1 <= n && right - left == i
      invariant Accounted(nums, result, i, left, right)
      invariant Sorted(nums) ==> Ordered(nums, result, i, left, right)
    {
      var square;
      var left0, right0 := left, right;
      if Abs(nums[left]) < Abs(nums[right]) {
        square := nums[right];
        right := right - 1;
      } else {
        square := nums[left];
        left := left + 1;
      }
      var result0 := result;
      result := result[i := square * square];
      FillStep(nums, result0, result, i, left0, right0, left, right, square);
      i := i - 1;
    }
    assert result[0..] == result;
    assert Squares(nums)[left..right + 1] == [];
    if Sorted(nums) {
      Done(nums, result);
    }
  }

  /** One placement keeps every square accounted for and, on sorted input,
      the tail ordered: the larger end square bounds the whole window. */
  lemma FillStep(nums: seq<int>, result0: seq<int>, result: seq<int>, i: int,
                 left0: int, right0: int, left: int, right: int, square: int)
    requires |result0| == |nums| && 0 <= i < |nums|
    requires 0 <= left0 <= right0 < |nums| && right0 - left0 == i
    requires Abs(nums[left0]) < Abs(nums[right0]) ==> square == nums[right0] && left == left0 && right == right0 - 1
    requires !(Abs(nums[left0]) < Abs(nums[right0])) ==> square == nums[left0] && left == left0 + 1 && right == right0
    requires result == result0[i := square * square]
    requires Accounted(nums, result0, i, left0, right0)
    requires Sorted(nums) ==> Ordered(nums, result0, i, left0, right0)
    ensures Accounted(nums, result, i - 1, left, right)
    ensures Sorted(nums) ==> Ordered(nums, result, i - 1, left, right)
  {
    FillAccounted(nums, result0, result, i, left0, right0, left, right, square);
    if Sorted(nums) {
      var chosen := if left == left0 then right0 else left0;
      FillOrdered(nums, result0, result, i, left0, right0, left, right, chosen);
    }
  }

  lemma FillAccounted(nums: seq<int>, result0: seq<int>, result: seq<int>, i: int,
                      left0: int, right0: int, left: int, right: int, square: int)
    requires |result0| == |nums| && 0 <= i < |nums|
    requires 0 <= left0 <= right0 < |nums| && right0 - left0 == i
    requires (square == nums[right0] && left == left0 && right == right0 - 1) ||
             (square == nums[left0] && left == left0 + 1 && right == right0)
    requires result == result0[i := square * square]
    requires Accounted(nums, result0, i, left0, right0)
    ensures Accounted(nums, result, i - 1, left, right)
  {
    var sq := Squares(nums);
    assert result[i..] == [square * square] + result0[i + 1..];
    if left == left0 {
      assert sq[left0..right0 + 1] == sq[left..right + 1] + [square * square];
    } else {
      assert sq[left0..right0 + 1] == [square * square] + sq[left..right + 1];
    }
  }

  lemma FillOrdered(nums: seq<int>, result0: seq<int>, result: seq<int>, i: int,
                    left0: int, right0: int, left: int, right: int, chosen: int)
    requires Sorted(nums)
    requires |result0| == |nums| && 0 <= i < |nums|
    requires 0 <= left0 <= right0 < |nums| && right0 - left0 == i
    requires (chosen == right0 && left == left0 && right == right0 - 1 && Abs(nums[left0]) < Abs(nums[right0])) ||
             (chosen == left0 && left == left0 + 1 && right == right0 && Abs(nums[right0]) <= Abs(nums[left0]))
    requires result == result0[i := nums[chosen] * nums[chosen]]
    requires Ordered(nums, result0, i, left0, right0)
    ensures Ordered(nums, result, i - 1, left, right)
  {
    var top := nums[chosen] * nums[chosen];
    if chosen == right0 {
      SquareMonotone(nums[left0], nums[right0]);
    } else {
      SquareMonotone(nums[right0], nums[left0]);
    }
    forall k | left0 <= k <= right0
      ensures nums[k] * nums[k] <= top
    {
      EndsBound(nums, left0, right0, k);
    }
    forall p | i < p < |nums|
      ensures top <= result[p]
    {
      assert top <= result0[p];
    }
  }

  lemma Done(nums: seq<int>, result: seq<int>)
    requires Sorted(nums) && |result| == |nums|
    requires forall p, q :: -1 < p <= q < |nums| ==> result[p] <= result[q]
    requires multiset(result) == multiset(Squares(nums))
    ensures result == SortedSquares(nums)
  {
    SortedUnique(result, SortedSquares(nums));
  }

  /** `sorted_squares([-2, -1, 0, 2, 3])` is `[0, 1, 4, 4, 9]`: the only
      sorted rearrangement of those squares, which both functions produce. */
  lemma ExampleOne(r: seq<int>)
    requires Sorted(r)
    requires multiset(r) == multiset(Squares([-2, -1, 0, 2, 3]))
    ensures r == [0, 1, 4, 4, 9]
  {
    ExampleSquares();
    AdjacentSorted([0, 1, 4, 4, 9]);
    SortedUnique(r, [0, 1, 4, 4, 9]);
  }

  lemma ExampleSquares()
    ensures multiset(Squares([-2, -1, 0, 2, 3])) == multiset([0, 1, 4, 4, 9])
  {
    SquaresLiteral();
    SameSquares();
  }

  lemma SquaresLiteral()
    ensures Squares([-2, -1, 0, 2, 3]) == [4, 1, 0, 4, 9]
  {
  }

  lemma SameSquares()
    ensures multiset([4, 1, 0, 4, 9]) == multiset([0, 1, 4, 4, 9])
  {
    assert multiset([4, 1, 0, 4, 9]) == multiset{0, 1, 4, 4, 9};
  }
}
