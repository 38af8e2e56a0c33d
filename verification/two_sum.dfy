/** `two_sum`: index every value by the last position that holds it, then scan
    the positions in order for the first one whose complement is indexed at a
    different position. The scan is shared with `pair_with_target_sum`, which
    builds its index differently. */
module TwoSum {

  /** Two different positions whose values add up to `target`. */
  ghost predicate IsPair(nums: seq<int>, target: int, i: int, j: int) {
    0 <= i < |nums| && 0 <= j < |nums| && i != j && nums[i] + nums[j] == target
  }

  ghost predicate HasPair(nums: seq<int>, target: int) {
    exists i, j :: IsPair(nums, target, i, j)
  }

  /** What `two_sum` promises: `[]` exactly when no pair exists; otherwise a
      pair whose first position is the smallest position taking part in any
      pair, and whose second position is the last one holding the complement. */
  ghost predicate TwoSumAnswer(nums: seq<int>, target: int, r: seq<int>) {
    if HasPair(nums, target) then
      && |r| == 2
      && IsPair(nums, target, r[0], r[1])
      && (forall i, j :: IsPair(nums, target, i, j) ==> r[0] <= i)
      && (forall k :: r[1] < k < |nums| ==> nums[k] != nums[r[1]])
    else
      r == []
  }

  /** `{item: i for i, item in enumerate(nums)}` over the first `n` positions:
      later positions overwrite earlier ones. */
  function LastIndex(nums: seq<int>, n: nat): map<int, int>
    requires n <= |nums|
    decreases n
  {
    if n == 0 then map[] else LastIndex(nums, n - 1)[nums[n - 1] := n - 1]
  }

  /** The index maps every value among the first `n` positions, and nothing
      else, to the last of those positions holding it. */
  lemma {:induction false} LastIndexSpec(nums: seq<int>, n: nat)
    requires n <= |nums|
    ensures forall i :: 0 <= i < n ==> nums[i] in LastIndex(nums, n) && i <= LastIndex(nums, n)[nums[i]]
    ensures forall v :: v in LastIndex(nums, n) ==>
              0 <= LastIndex(nums, n)[v] < n && nums[LastIndex(nums, n)[v]] == v
    ensures forall v, k :: v in LastIndex(nums, n) && LastIndex(nums, n)[v] < k < n ==> nums[k] != v
    decreases n
  {
    if n > 0 {
      LastIndexSpec(nums, n - 1);
    }
  }

  /** Indexing one more position overwrites that value's entry. */
  lemma LastIndexStep(nums: seq<int>, n: nat)
    requires 0 < n <= |nums|
    ensures LastIndex(nums, n) == LastIndex(nums, n - 1)[nums[n - 1] := n - 1]
  {
  }

  /** The scan's test at position `i`: `find_val in hmap and hmap[find_val] != i`. */
  ghost predicate Hit(nums: seq<int>, target: int, m: map<int, int>, i: int)
    requires 0 <= i < |nums|
  {
    target - nums[i] in m && m[target - nums[i]] != i
  }

  /** The outcome of the scan over an index `m`: the first hit `i`, answered
      as `[i, m[target - nums[i]]]`, or `[]` when no position hits. */
  ghost predicate ScanAnswer(nums: seq<int>, target: int, m: map<int, int>, r: seq<int>) {
    if exists i :: 0 <= i < |nums| && Hit(nums, target, m, i) then
      && |r| == 2
      && 0 <= r[0] < |nums|
      && Hit(nums, target, m, r[0])
      && r[1] == m[target - nums[r[0]]]
      && (forall i :: 0 <= i < r[0] ==> !Hit(nums, target, m, i))
    else
      r == []
  }

  /** The loop `for i in range(len(nums))` with its early return. */
  method Scan(nums: seq<int>, target: int, m: map<int, int>) returns (r: seq<int>)
    ensures ScanAnswer(nums, target, m, r)
  {
    for i := 0 to |nums|
      invariant forall i' :: 0 <= i' < i ==> !Hit(nums, target, m, i')
    {
      var findVal := target - nums[i];
      if findVal in m && m[findVal] != i {
        return [i, m[findVal]];
      }
    }
    return [];
  }

  /** `two_sum(nums, target)`. */
  method TwoSum(nums: seq<int>, target: int) returns (r: seq<int>)
    ensures TwoSumAnswer(nums, target, r)
  {
    var hmap := LastIndex(nums, |nums|);
    r := Scan(nums, target, hmap);
    LastIndexAnswers(nums, target, r);
  }

  /** Over the last-position index, a hit is the start of a pair. */
  lemma HitIsPair(nums: seq<int>, target: int, i: int)
    requires 0 <= i < |nums| && Hit(nums, target, LastIndex(nums, |nums|), i)
    ensures IsPair(nums, target, i, LastIndex(nums, |nums|)[target - nums[i]])
  {
    LastIndexSpec(nums, |nums|);
  }

  /** Over the last-position index, every pair `(i, j)` has a hit at `i` or
      earlier: when the complement's last position is `i` itself, the partner
      `j` lies before `i` and hits. */
  lemma PairHasHit(nums: seq<int>, target: int, i: int, j: int)
    requires IsPair(nums, target, i, j)
    ensures exists h :: 0 <= h <= i && Hit(nums, target, LastIndex(nums, |nums|), h)
  {
    var m := LastIndex(nums, |nums|);
    LastIndexSpec(nums, |nums|);
    if m[target - nums[i]] == i {
      assert j < i;
      assert target - nums[j] == nums[i];
      assert Hit(nums, target, m, j);
    } else {
      assert Hit(nums, target, m, i);
    }
  }

  /** Scanning over the last-position index answers as `two_sum` promises. */
  lemma LastIndexAnswers(nums: seq<int>, target: int, r: seq<int>)
    requires ScanAnswer(nums, target, LastIndex(nums, |nums|), r)
    ensures TwoSumAnswer(nums, target, r)
  {
    var m := LastIndex(nums, |nums|);
    LastIndexSpec(nums, |nums|);
    if HasPair(nums, target) {
      var i, j :| IsPair(nums, target, i, j);
      PairHasHit(nums, target, i, j);
      HitIsPair(nums, target, r[0]);
      forall i', j' | IsPair(nums, target, i', j')
        ensures r[0] <= i'
      {
        PairHasHit(nums, target, i', j');
      }
    } else if exists i :: 0 <= i < |nums| && Hit(nums, target, m, i) {
      var i :| 0 <= i < |nums| && Hit(nums, target, m, i);
      HitIsPair(nums, target, i);
      assert false;
    }
  }

  /** `two_sum([2,7,11,15], 9)` answers `[0, 1]`. */
  lemma ExampleOne(r: seq<int>)
    requires TwoSumAnswer([2, 7, 11, 15], 9, r)
    ensures r == [0, 1]
  {
    assert IsPair([2, 7, 11, 15], 9, 0, 1);
  }

  /** `two_sum([3,2,4], 6)` answers `[1, 2]`: position 0 would need itself. */
  lemma ExampleTwo(r: seq<int>)
    requires TwoSumAnswer([3, 2, 4], 6, r)
    ensures r == [1, 2]
  {
    assert IsPair([3, 2, 4], 6, 1, 2);
  }

  /** `two_sum([3,3], 6)` answers `[0, 1]`: equal values at different positions pair up. */
  lemma ExampleThree(r: seq<int>)
    requires TwoSumAnswer([3, 3], 6, r)
    ensures r == [0, 1]
  {
    assert IsPair([3, 3], 6, 0, 1);
  }
}
