/** `two_sum_sorted_input_array`: on a sorted array, close in from both ends,
    dropping the right end while the sum is too large and the left end while
    it is too small. Positions in the answer are 1-based. */
module TwoSumSorted {
  import opened Seqs
  import opened TwoSum

  /** Positions `i < j` whose values add up to `target`. */
  ghost predicate OrderedPair(nums: seq<int>, target: int, i: int, j: int) {
    0 <= i < j < |nums| && nums[i] + nums[j] == target
  }

  /** What the two pointers return: `[]` when no pair exists; otherwise the
      1-based positions of a pair whose first position is the smallest and
      whose second position is the largest taking part in any pair. */
  ghost predicate SortedAnswer(nums: seq<int>, target: int, r: seq<int>) {
    if exists i, j :: OrderedPair(nums, target, i, j) then
      && |r| == 2
      && OrderedPair(nums, target, r[0] - 1, r[1] - 1)
      && (forall i, j :: OrderedPair(nums, target, i, j) ==> r[0] - 1 <= i && j <= r[1] - 1)
    else
      r == []
  }

  /** Any pair of positions can be listed in increasing order. */
  lemma HasOrderedPair(nums: seq<int>, target: int)
    ensures HasPair(nums, target) <==> exists i, j :: OrderedPair(nums, target, i, j)
  {
    if HasPair(nums, target) {
      var i, j :| IsPair(nums, target, i, j);
      if i < j {
        assert OrderedPair(nums, target, i, j);
      } else {
        assert OrderedPair(nums, target, j, i);
      }
    }
    if exists i, j :: OrderedPair(nums, target, i, j) {
      var i, j :| OrderedPair(nums, target, i, j);
      assert IsPair(nums, target, i, j);
    }
  }

  /** `two_sum_sorted_input_array(nums, target)` on sorted `nums`: `[]` exactly
      when no two positions add up to `target`. */
  method TwoSumSortedInputArray(nums: seq<int>, target: int) returns (r: seq<int>)
    requires Sorted(nums)
    ensures SortedAnswer(nums, target, r)
    ensures r == [] <==> !HasPair(nums, target)
  {
    HasOrderedPair(nums, target);
    var leftPtr, rightPtr := 0, |nums| - 1;
    while leftPtr < rightPtr
      invariant 0 <= leftPtr <= rightPtr + 1 <= |nums|
      invariant forall i, j :: OrderedPair(nums, target, i, j) ==> leftPtr <= i && j <= rightPtr
      decreases rightPtr - leftPtr
    {
      if nums[leftPtr] + nums[rightPtr] == target {
        assert OrderedPair(nums, target, leftPtr, rightPtr);
        return [leftPtr + 1, rightPtr + 1];
      } else if nums[leftPtr] + nums[rightPtr] > target {
        DropRight(nums, target, leftPtr, rightPtr);
        rightPtr := rightPtr - 1;
      } else {
        DropLeft(nums, target, leftPtr, rightPtr);
        leftPtr := leftPtr + 1;
      }
    }
    return [];
  }

  /** A sum above the target rules out the right end: with any remaining left
      position the sum is at least as large. */
  lemma DropRight(nums: seq<int>, target: int, left: int, right: int)
    requires Sorted(nums)
    requires 0 <= left < right < |nums|
    requires nums[left] + nums[right] > target
    requires forall i, j :: OrderedPair(nums, target, i, j) ==> left <= i && j <= right
    ensures forall i, j :: OrderedPair(nums, target, i, j) ==> left <= i && j <= right - 1
  {
  }

  /** A sum below the target rules out the left end. */
  lemma DropLeft(nums: seq<int>, target: int, left: int, right: int)
    requires Sorted(nums)
    requires 0 <= left < right < |nums|
    requires nums[left] + nums[right] < target
    requires forall i, j :: OrderedPair(nums, target, i, j) ==> left <= i && j <= right
    ensures forall i, j :: OrderedPair(nums, target, i, j) ==> left + 1 <= i && j <= right
  {
  }

  /** `two_sum_sorted_input_array([2, 7, 11, 15], 9)` is `[1, 2]`. */
  lemma ExampleOne(r: seq<int>)
    requires SortedAnswer([2, 7, 11, 15], 9, r)
    ensures r == [1, 2]
  {
    assert OrderedPair([2, 7, 11, 15], 9, 0, 1);
  }

  /** `two_sum_sorted_input_array([2, 3, 4], 6)` is `[1, 3]`. */
  lemma ExampleTwo(r: seq<int>)
    requires SortedAnswer([2, 3, 4], 6, r)
    ensures r == [1, 3]
  {
    assert OrderedPair([2, 3, 4], 6, 0, 2);
  }

  /** `two_sum_sorted_input_array([-1, 0], -1)` is `[1, 2]`. */
  lemma ExampleThree(r: seq<int>)
    requires SortedAnswer([-1, 0], -1, r)
    ensures r == [1, 2]
  {
    assert OrderedPair([-1, 0], -1, 0, 1);
  }
}
