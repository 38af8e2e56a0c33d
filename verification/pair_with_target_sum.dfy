/** `pair_with_target_sum` and `sol_pair_with_target_sum`.

    The first builds its index with `nums_idx[arr[i]] += i` over a
    `defaultdict(int)`, so each value maps to the SUM of the positions holding
    it; that is the last position only when values are distinct. The second
    indexes position `idx` before looking up its complement, so it only pairs
    a position with an earlier one holding a different value. */
module PairWithTargetSum {
  import opened TwoSum

  /** No value occurs twice. */
  ghost predicate Distinct(arr: seq<int>) {
    forall i, j :: 0 <= i < j < |arr| ==> arr[i] != arr[j]
  }

  /** The index built by `nums_idx[arr[i]] += i` over the first `n` positions. */
  function IndexSums(arr: seq<int>, n: nat): map<int, int>
    requires n <= |arr|
    decreases n
  {
    if n == 0 then map[]
    else
      var m := IndexSums(arr, n - 1);
      var v := arr[n - 1];
      m[v := (if v in m then m[v] else 0) + (n - 1)]
  }

  /** Every value among the first `n` positions is a key, and nothing else;
      its entry is no smaller than any position holding it. */
  lemma {:induction false} IndexSumsSpec(arr: seq<int>, n: nat)
    requires n <= |arr|
    ensures forall v :: v in IndexSums(arr, n) ==> exists i :: 0 <= i < n && arr[i] == v
    ensures forall i :: 0 <= i < n ==> arr[i] in IndexSums(arr, n) && i <= IndexSums(arr, n)[arr[i]]
    decreases n
  {
    if n > 0 {
      IndexSumsSpec(arr, n - 1);
    }
  }

  /** On distinct values the sums are single positions: the index is the
      last-position index `two_sum` builds. */
  lemma {:induction false} IndexSumsDistinct(arr: seq<int>, n: nat)
    requires n <= |arr|
    requires Distinct(arr)
    ensures IndexSums(arr, n) == LastIndex(arr, n)
    decreases n
  {
    if n > 0 {
      IndexSumsDistinct(arr, n - 1);
      IndexSumsSpec(arr, n - 1);
      assert arr[n - 1] !in IndexSums(arr, n - 1);
    }
  }

  /** `pair_with_target_sum(arr, target)`: the shared scan over the index of
      position sums. On distinct values it answers exactly as `two_sum`. */
  method PairWithTargetSum(arr: seq<int>, target: int) returns (r: seq<int>)
    ensures ScanAnswer(arr, target, IndexSums(arr, |arr|), r)
    ensures Distinct(arr) ==> TwoSumAnswer(arr, target, r)
  {
    var numsIdx := IndexSums(arr, |arr|);
    r := Scan(arr, target, numsIdx);
    DistinctAnswers(arr, target, r);
  }

  lemma DistinctAnswers(arr: seq<int>, target: int, r: seq<int>)
    requires ScanAnswer(arr, target, IndexSums(arr, |arr|), r)
    ensures Distinct(arr) ==> TwoSumAnswer(arr, target, r)
  {
    if Distinct(arr) {
      IndexSumsDistinct(arr, |arr|);
      LastIndexAnswers(arr, target, r);
    }
  }

  /** `pair_with_target_sum([1,2,3,4,6], 6)` answers `[1, 3]`. */
  lemma ExampleOne(r: seq<int>)
    requires ScanAnswer([1, 2, 3, 4, 6], 6, IndexSums([1, 2, 3, 4, 6], 5), r)
    ensures r == [1, 3]
  {
    var arr := [1, 2, 3, 4, 6];
    assert Distinct(arr);
    DistinctAnswers(arr, 6, r);
    FirstPairOne(r);
  }

  lemma FirstPairOne(r: seq<int>)
    requires TwoSumAnswer([1, 2, 3, 4, 6], 6, r)
    ensures r == [1, 3]
  {
    assert IsPair([1, 2, 3, 4, 6], 6, 1, 3);
  }

  /** `pair_with_target_sum([2,5,9,11], 11)` answers `[0, 2]`. */
  lemma ExampleTwo(r: seq<int>)
    requires ScanAnswer([2, 5, 9, 11], 11, IndexSums([2, 5, 9, 11], 4), r)
    ensures r == [0, 2]
  {
    var arr := [2, 5, 9, 11];
    assert Distinct(arr);
    DistinctAnswers(arr, 11, r);
    FirstPairTwo(r);
  }

  lemma FirstPairTwo(r: seq<int>)
    requires TwoSumAnswer([2, 5, 9, 11], 11, r)
    ensures r == [0, 2]
  {
    assert IsPair([2, 5, 9, 11], 11, 0, 2);
  }

  /** With a repeated value the summed index points past the array:
      `pair_with_target_sum([1,1,1], 2)` answers `[0, 3]`. */
  lemma RepeatedValuePointsPastEnd(r: seq<int>)
    requires ScanAnswer([1, 1, 1], 2, IndexSums([1, 1, 1], 3), r)
    ensures r == [0, 3] && r[1] >= |[1, 1, 1]|
  {
    var arr := [1, 1, 1];
    assert IndexSums(arr, 1) == map[1 := 0];
    assert IndexSums(arr, 2) == map[1 := 1];
    assert IndexSums(arr, 3) == map[1 := 3];
    assert Hit(arr, 2, IndexSums(arr, |arr|), 0);
  }

  /** `idx` has an earlier partner holding a different value. */
  ghost predicate EarlierPartner(arr: seq<int>, target: int, idx: int)
    requires 0 <= idx < |arr|
  {
    exists j :: 0 <= j < idx && arr[j] + arr[idx] == target && arr[j] != arr[idx]
  }

  /** What `sol_pair_with_target_sum` answers: the first position `idx` with an
      earlier partner of a different value, paired with the last such
      partner before it; `[]` when there is none. */
  ghost predicate SolAnswer(arr: seq<int>, target: int, r: seq<int>) {
    if exists idx :: 0 <= idx < |arr| && EarlierPartner(arr, target, idx) then
      && |r| == 2
      && 0 <= r[1] < r[0] < |arr|
      && arr[r[0]] + arr[r[1]] == target
      && arr[r[0]] != arr[r[1]]
      && (forall k :: r[1] < k < r[0] ==> arr[k] != arr[r[1]])
      && (forall idx :: 0 <= idx < r[0] ==> !EarlierPartner(arr, target, idx))
    else
      r == []
  }

  /** `sol_pair_with_target_sum(arr, target)`. */
  method SolPairWithTargetSum(arr: seq<int>, target: int) returns (r: seq<int>)
    ensures SolAnswer(arr, target, r)
  {
    var numsIndex: map<int, int> := map[];
    for idx := 0 to |arr|
      invariant numsIndex == LastIndex(arr, idx)
      invariant forall i :: 0 <= i < idx ==> !EarlierPartner(arr, target, i)
    {
      LastIndexStep(arr, idx + 1);
      numsIndex := numsIndex[arr[idx] := idx];
      var complement := target - arr[idx];
      if complement in numsIndex && idx != numsIndex[complement] {
        r := [idx, numsIndex[complement]];
        SolHit(arr, target, idx, r);
        return;
      }
      SolMiss(arr, target, idx);
    }
    return [];
  }

  /** A hit at `idx` finds the last earlier partner. */
  lemma SolHit(arr: seq<int>, target: int, idx: int, r: seq<int>)
    requires 0 <= idx < |arr|
    requires target - arr[idx] in LastIndex(arr, idx + 1)
    requires r == [idx, LastIndex(arr, idx + 1)[target - arr[idx]]]
    requires idx != r[1]
    requires forall i :: 0 <= i < idx ==> !EarlierPartner(arr, target, i)
    ensures SolAnswer(arr, target, r)
  {
    LastIndexSpec(arr, idx + 1);
    assert EarlierPartner(arr, target, idx);
  }

  /** No hit at `idx` means no earlier partner of a different value: an
      earlier partner's value is indexed, and if its last position is `idx`
      the two values are equal. */
  lemma SolMiss(arr: seq<int>, target: int, idx: int)
    requires 0 <= idx < |arr|
    requires var m := LastIndex(arr, idx + 1);
             !(target - arr[idx] in m && idx != m[target - arr[idx]])
    ensures !EarlierPartner(arr, target, idx)
  {
    LastIndexSpec(arr, idx + 1);
  }

  /** `sol_pair_with_target_sum([1,2,3,4,6], 6)` answers `[3, 1]`: the later
      position comes first. */
  lemma SolExampleOne(r: seq<int>)
    requires SolAnswer([1, 2, 3, 4, 6], 6, r)
    ensures r == [3, 1]
  {
    var arr := [1, 2, 3, 4, 6];
    assert EarlierPartner(arr, 6, 3) by { assert arr[1] + arr[3] == 6; }
    assert !EarlierPartner(arr, 6, 2);
  }

  /** Equal values never pair: `sol_pair_with_target_sum([3,3], 6)` answers
      `[]` although positions 0 and 1 add up to 6. */
  lemma SolMissesEqualValues(r: seq<int>)
    requires SolAnswer([3, 3], 6, r)
    ensures r == [] && IsPair([3, 3], 6, 0, 1)
  {
  }
}
