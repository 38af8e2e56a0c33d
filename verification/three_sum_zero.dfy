/** `three_sum_to_zero`: sort, then for each first position with a value not
    above zero and different from the previous one, close in on the rest
    from both ends; on a zero sum record the values, move both ends in, and
    skip `low` past copies of the value just used. The triplets come out in
    strictly increasing order, so none repeats. */
module ThreeSumZero {
  import opened Seqs
  import opened Triples

  /** Positions `i < j < k` whose values add up to zero. */
  ghost predicate Zero(a: seq<int>, i: int, j: int, k: int) {
    IsTriple(a, i, j, k) && TripleSum(a, i, j, k) == 0
  }

  /** `[nums[i], nums[low], nums[high]]`. */
  function At(a: seq<int>, i: int, j: int, k: int): seq<int>
    requires IsTriple(a, i, j, k)
  {
    [a[i], a[j], a[k]]
  }

  /** `t` holds the values at positions of a zero triplet. */
  ghost predicate Listed(a: seq<int>, t: seq<int>) {
    exists i, j, k :: Zero(a, i, j, k) && t == At(a, i, j, k)
  }

  /** `u` comes before any triplet starting with `x, y`. */
  ghost predicate Before(u: seq<int>, x: int, y: int) {
    |u| == 3 && (u[0] < x || (u[0] == x && u[1] < y))
  }

  /** Triplets in strictly increasing order of first, then second value. */
  ghost predicate Increasing(result: seq<seq<int>>) {
    forall p, q :: 0 <= p < q < |result| && |result[q]| == 3 ==> Before(result[p], result[q][0], result[q][1])
  }

  /** Three values in non-decreasing order adding up to zero. */
  ghost predicate ZeroTriplet(t: seq<int>) {
    |t| == 3 && t[0] <= t[1] <= t[2] && t[0] + t[1] + t[2] == 0
  }

  /** `t` is a zero triplet in order whose values are drawn from `nums`. */
  ghost predicate DrawnFrom(t: seq<int>, nums: seq<int>) {
    ZeroTriplet(t) && multiset{t[0], t[1], t[2]} <= multiset(nums)
  }

  /** The state of the inner loop for first position `i`: what is recorded
      is sound and in order, and every zero triplet `(i, j, k)` outside
      `low <= j < k <= high` is recorded. */
  ghost predicate InnerInv(a: seq<int>, i: int, low: int, high: int, result0: seq<seq<int>>, result: seq<seq<int>>)
    requires Sorted(a)
  {
    && 0 <= i < low && high < |a| && low <= high + 1
    && |result0| <= |result| && result[..|result0|] == result0
    && (forall u :: u in result ==> Listed(a, u) && u[0] <= a[i])
    && Increasing(result)
    && (low < high ==> forall u :: u in result ==> Before(u, a[i], a[low]))
    && (forall j, k :: Zero(a, i, j, k) && !(low <= j && k <= high) ==> At(a, i, j, k) in result)
  }

  /** The state of the outer loop before first position `i`: what is
      recorded is sound and in order, starts at or below the previous first
      value, and every zero triplet with first position below `i` is
      recorded. */
  ghost predicate OuterInv(a: seq<int>, i: int, result: seq<seq<int>>) {
    && 0 <= i <= |a|
    && (forall u :: u in result ==> Listed(a, u) && 0 < i && u[0] <= a[i - 1])
    && Increasing(result)
    && (forall i', j, k :: Zero(a, i', j, k) && i' < i ==> At(a, i', j, k) in result)
  }

  /** `three_sum_to_zero(nums)`: the sorted list, and the triplets found.
      A sequence of three values is found exactly when it is in
      non-decreasing order, adds up to zero and is drawn from the list's
      values; no triplet is found twice. */
  method ThreeSumToZero(nums: seq<int>) returns (sorted: seq<int>, result: seq<seq<int>>)
    ensures sorted == SortInts(nums)
    ensures forall t :: t in result <==> DrawnFrom(t, nums)
    ensures forall p, q :: 0 <= p < q < |result| ==> result[p] != result[q]
    ensures forall t :: t in result ==> |t| == 3 && t[0] <= 0
  {
    sorted := SortInts(nums);
    result := [];
    var i := 0;
    while i < |sorted|
      invariant OuterInv(sorted, i, result)
    {
      if sorted[i] > 0 {
        break;
      }
      result := OuterTurn(sorted, i, result);
      i := i + 1;
    }
    Found(nums, sorted, i, result);
  }

  /** One turn of the outer loop: search the pairs for first position `i`,
      unless its value repeats the previous one. */
  method OuterTurn(a: seq<int>, i: int, result0: seq<seq<int>>) returns (result: seq<seq<int>>)
    requires Sorted(a) && 0 <= i < |a|
    requires OuterInv(a, i, result0)
    ensures OuterInv(a, i + 1, result)
  {
    if i == 0 || a[i - 1] != a[i] {
      assert i == 0 || a[i - 1] < a[i];
      result := PairsForFirst(a, i, result0);
    } else {
      SkipFirst(a, i, result0);
      result := result0;
    }
  }

  /** When the outer loop stops, at the end or at a positive first value,
      the recorded triplets are exactly those drawn from the input, once
      each. */
  lemma Found(nums: seq<int>, a: seq<int>, i: int, result: seq<seq<int>>)
    requires a == SortInts(nums)
    requires OuterInv(a, i, result)
    requires i == |a| || a[i] > 0
    ensures forall t :: t in result <==> DrawnFrom(t, nums)
    ensures forall p, q :: 0 <= p < q < |result| ==> result[p] != result[q]
    ensures forall t :: t in result ==> |t| == 3 && t[0] <= 0
  {
    if i < |a| {
      NoZeroFrom(a, i);
    }
    FoundSound(nums, a, result);
    FoundComplete(nums, a, result);
    FoundOnce(a, result);
  }

  /** Past a positive first value no triplet adds up to zero. */
  lemma NoZeroFrom(a: seq<int>, i: int)
    requires Sorted(a) && 0 <= i < |a| && a[i] > 0
    ensures forall i', j, k :: Zero(a, i', j, k) ==> i' < i
  {
    forall i', j, k | IsTriple(a, i', j, k) && i <= i'
      ensures TripleSum(a, i', j, k) > 0
    {
      assert a[i] <= a[i'] <= a[j] <= a[k];
    }
  }

  /** A first position repeating the previous value adds no new triplet. */
  lemma SkipFirst(a: seq<int>, i: int, result: seq<seq<int>>)
    requires 0 < i < |a| && a[i - 1] == a[i]
    requires OuterInv(a, i, result)
    ensures OuterInv(a, i + 1, result)
  {
    forall i', j, k | Zero(a, i', j, k) && i' == i
      ensures At(a, i', j, k) in result
    {
      assert Zero(a, i - 1, j, k) && At(a, i - 1, j, k) == At(a, i, j, k);
    }
  }

  /** The inner loop for first position `i`. */
  method PairsForFirst(a: seq<int>, i: int, result0: seq<seq<int>>) returns (result: seq<seq<int>>)
    requires Sorted(a) && 0 <= i < |a|
    requires i == 0 || a[i - 1] < a[i]
    requires OuterInv(a, i, result0)
    ensures OuterInv(a, i + 1, result)
  {
    result := result0;
    var low, high := i + 1, |a| - 1;
    while low < high
      invariant InnerInv(a, i, low, high, result0, result)
      decreases high - low
    {
      var threeSum := a[i] + a[low] + a[high];
      if threeSum == 0 {
        result, low, high := Record(a, i, low, high, result0, result);
      } else if threeSum < 0 {
        RaiseLow(a, i, low, high, result0, result);
        low := low + 1;
      } else {
        LowerHigh(a, i, low, high, result0, result);
        high := high - 1;
      }
    }
    InnerDone(a, i, low, high, result0, result);
  }

  /** When the two inner pointers meet, every zero triplet starting at `i`
      or earlier is recorded. */
  lemma InnerDone(a: seq<int>, i: int, low: int, high: int, result0: seq<seq<int>>, result: seq<seq<int>>)
    requires Sorted(a) && 0 <= i < |a| && low >= high
    requires OuterInv(a, i, result0)
    requires InnerInv(a, i, low, high, result0, result)
    ensures OuterInv(a, i + 1, result)
  {
    forall i', j, k | Zero(a, i', j, k) && i' < i + 1
      ensures At(a, i', j, k) in result
    {
      if i' < i {
        assert At(a, i', j, k) in result0;
        assert result0 == result[..|result0|];
      }
    }
  }

  /** A negative sum rules out `low` with every `k` up to `high`. */
  lemma RaiseLow(a: seq<int>, i: int, low: int, high: int, result0: seq<seq<int>>, result: seq<seq<int>>)
    requires Sorted(a) && low < high
    requires InnerInv(a, i, low, high, result0, result)
    requires a[i] + a[low] + a[high] < 0
    ensures InnerInv(a, i, low + 1, high, result0, result)
  {
    forall k | low < k <= high
      ensures TripleSum(a, i, low, k) < 0
    {
      assert a[k] <= a[high];
    }
    if low + 1 < high {
      assert a[low] <= a[low + 1];
    }
  }

  /** A positive sum rules out `high` with every `j` from `low` on. */
  lemma LowerHigh(a: seq<int>, i: int, low: int, high: int, result0: seq<seq<int>>, result: seq<seq<int>>)
    requires Sorted(a) && low < high
    requires InnerInv(a, i, low, high, result0, result)
    requires a[i] + a[low] + a[high] > 0
    ensures InnerInv(a, i, low, high - 1, result0, result)
  {
    forall j | low <= j < high
      ensures TripleSum(a, i, j, high) > 0
    {
      assert a[low] <= a[j];
    }
  }

  /** A zero sum: record it, move both ends in, and skip `low` past copies
      of the value just used. */
  method Record(a: seq<int>, i: int, low0: int, high0: int, result0: seq<seq<int>>, result1: seq<seq<int>>)
    returns (result: seq<seq<int>>, low: int, high: int)
    requires Sorted(a) && low0 < high0
    requires InnerInv(a, i, low0, high0, result0, result1)
    requires a[i] + a[low0] + a[high0] == 0
    ensures InnerInv(a, i, low, high, result0, result)
    ensures high - low < high0 - low0
  {
    var t := At(a, i, low0, high0);
    assert Zero(a, i, low0, high0);
    result := result1 + [t];
    AppendInOrder(a, i, low0, high0, result0, result1);
    low, high := low0 + 1, high0 - 1;
    HitCovers(a, i, low0, high0, result);
    while low < high && a[low - 1] == a[low]
      invariant low0 < low <= high + 1 && high == high0 - 1
      invariant forall j :: low0 <= j < low ==> a[j] == a[low0]
      decreases high - low
    {
      low := low + 1;
    }
    SkipCovers(a, i, low0, high0, low, result);
    if low < high {
      assert a[low - 1] < a[low];
      assert a[low0] < a[low];
    }
  }

  /** The new triplet comes after everything recorded. */
  lemma AppendInOrder(a: seq<int>, i: int, low: int, high: int, result0: seq<seq<int>>, result1: seq<seq<int>>)
    requires Sorted(a) && low < high
    requires InnerInv(a, i, low, high, result0, result1)
    requires Zero(a, i, low, high)
    ensures var result := result1 + [At(a, i, low, high)];
            && |result0| <= |result| && result[..|result0|] == result0
            && (forall u :: u in result ==> Listed(a, u) && u[0] <= a[i])
            && Increasing(result)
  {
    var result := result1 + [At(a, i, low, high)];
    assert result[..|result0|] == result1[..|result0|];
    forall p, q | 0 <= p < q < |result| && |result[q]| == 3
      ensures Before(result[p], result[q][0], result[q][1])
    {
      if q == |result1| {
        assert result[p] in result1;
      }
    }
  }

  /** After a hit at `(low0, high0)`, every zero triplet using `low0` or
      `high0` has the values just recorded. */
  lemma HitCovers(a: seq<int>, i: int, low0: int, high0: int, result: seq<seq<int>>)
    requires Sorted(a) && 0 <= i < low0 < high0 < |a|
    requires Zero(a, i, low0, high0) && At(a, i, low0, high0) in result
    ensures forall j, k :: Zero(a, i, j, k) && (j == low0 || k == high0) ==> At(a, i, j, k) in result
  {
    forall j, k | Zero(a, i, j, k) && (j == low0 || k == high0)
      ensures At(a, i, j, k) == At(a, i, low0, high0)
    {
    }
  }

  /** Skipping copies of `a[low0]` leaves only zero triplets with the values
      just recorded behind. */
  lemma SkipCovers(a: seq<int>, i: int, low0: int, high0: int, low: int, result: seq<seq<int>>)
    requires Sorted(a) && 0 <= i < low0 < low <= high0 < |a|
    requires Zero(a, i, low0, high0) && At(a, i, low0, high0) in result
    requires forall j :: low0 <= j < low ==> a[j] == a[low0]
    ensures forall j, k :: Zero(a, i, j, k) && low0 <= j < low ==> At(a, i, j, k) in result
  {
    forall j, k | Zero(a, i, j, k) && low0 <= j < low
      ensures At(a, i, j, k) == At(a, i, low0, high0)
    {
    }
  }

  /** Three values in order with the same multiset as three others in order
      are the same three. */
  lemma SortedTripletUnique(p: int, q: int, r: int, x: int, y: int, z: int)
    requires p <= q <= r && x <= y <= z
    requires multiset{p, q, r} == multiset{x, y, z}
    ensures p == x && q == y && r == z
  {
    assert p in multiset{x, y, z} && x in multiset{p, q, r};
    assert r in multiset{x, y, z} && z in multiset{p, q, r};
    assert p == x && r == z;
    assert multiset{p, q, r} - multiset{p, r} == multiset{q};
    assert multiset{x, y, z} - multiset{x, z} == multiset{y};
  }

  /** Every recorded triplet is drawn from the input and starts at or below
      zero. */
  lemma FoundSound(nums: seq<int>, a: seq<int>, result: seq<seq<int>>)
    requires a == SortInts(nums)
    requires forall u :: u in result ==> Listed(a, u)
    ensures forall t :: t in result ==> DrawnFrom(t, nums) && t[0] <= 0
  {
    forall t | t in result
      ensures DrawnFrom(t, nums) && t[0] <= 0
    {
      var i, j, k :| Zero(a, i, j, k) && t == At(a, i, j, k);
      SubTriple(a, i, j, k);
    }
  }

  /** Every zero triplet drawn from the input is recorded: it sits at three
      ordered positions of the sorted list. */
  lemma FoundComplete(nums: seq<int>, a: seq<int>, result: seq<seq<int>>)
    requires a == SortInts(nums)
    requires forall i, j, k :: Zero(a, i, j, k) ==> At(a, i, j, k) in result
    ensures forall t :: DrawnFrom(t, nums) ==> t in result
  {
    forall t | DrawnFrom(t, nums)
      ensures t in result
    {
      var i, j, k := Positions(nums, a, t);
    }
  }

  /** The positions of the sorted list holding a zero triplet drawn from the
      input. */
  lemma Positions(nums: seq<int>, a: seq<int>, t: seq<int>) returns (i: int, j: int, k: int)
    requires a == SortInts(nums)
    requires DrawnFrom(t, nums)
    ensures Zero(a, i, j, k) && At(a, i, j, k) == t
  {
    assert multiset(a) == multiset(nums);
    i, j, k := PickTriple(a, t[0], t[1], t[2]);
    assert a[i] <= a[j] <= a[k];
    SortedTripletUnique(a[i], a[j], a[k], t[0], t[1], t[2]);
    Three(t);
  }

  /** A sequence of length three is its three elements. */
  lemma Three(t: seq<int>)
    requires |t| == 3
    ensures t == [t[0], t[1], t[2]]
  {
  }

  /** Triplets in strictly increasing order are all different. */
  lemma FoundOnce(a: seq<int>, result: seq<seq<int>>)
    requires forall u :: u in result ==> Listed(a, u)
    requires Increasing(result)
    ensures forall p, q :: 0 <= p < q < |result| ==> result[p] != result[q]
  {
    forall p, q | 0 <= p < q < |result|
      ensures result[p] != result[q]
    {
      assert result[q] in result;
    }
  }

  /** `three_sum_to_zero([-1, 0, 1, 2, -1, -4])` finds `[-1, -1, 2]` and
      `[-1, 0, 1]` and nothing else. */
  lemma ExampleOne(result: seq<seq<int>>)
    requires forall t :: t in result <==> DrawnFrom(t, [-1, 0, 1, 2, -1, -4])
    ensures forall t :: t in result <==> t == [-1, -1, 2] || t == [-1, 0, 1]
  {
    var m := multiset{-1, 0, 1, 2, -1, -4};
    assert multiset([-1, 0, 1, 2, -1, -4]) == m;
    assert DrawnFrom([-1, -1, 2], [-1, 0, 1, 2, -1, -4]);
    assert DrawnFrom([-1, 0, 1], [-1, 0, 1, 2, -1, -4]);
    forall t | DrawnFrom(t, [-1, 0, 1, 2, -1, -4])
      ensures t == [-1, -1, 2] || t == [-1, 0, 1]
    {
      OnlyTwo(t);
    }
  }

  /** The zero triplets drawn from `[-1, 0, 1, 2, -1, -4]`: `-4` would need
      `2` twice, `0` first would need `0` twice. */
  lemma OnlyTwo(t: seq<int>)
    requires DrawnFrom(t, [-1, 0, 1, 2, -1, -4])
    ensures t == [-1, -1, 2] || t == [-1, 0, 1]
  {
    var m := multiset{-1, 0, 1, 2, -1, -4};
    assert multiset([-1, 0, 1, 2, -1, -4]) == m;
    var x, y, z := t[0], t[1], t[2];
    var n := multiset{x, y, z};
    assert x in m && y in m && z in m;
    assert n[2] <= 1 && n[0] <= 1;
    Three(t);
  }

  /** `three_sum_to_zero([0, 1, 1])` finds nothing. */
  lemma ExampleTwo(result: seq<seq<int>>)
    requires forall t :: t in result <==> DrawnFrom(t, [0, 1, 1])
    ensures forall t :: t !in result
  {
    var m := multiset{0, 1, 1};
    assert multiset([0, 1, 1]) == m;
    forall t | ZeroTriplet(t)
      ensures !DrawnFrom(t, [0, 1, 1])
    {
      var x, y, z := t[0], t[1], t[2];
      var n := multiset{x, y, z};
      assert n <= m ==> x in m && y in m && n[0] <= 1;
    }
  }

  /** `three_sum_to_zero([0, 0, 0])` finds `[0, 0, 0]` and nothing else. */
  lemma ExampleThree(result: seq<seq<int>>)
    requires forall t :: t in result <==> DrawnFrom(t, [0, 0, 0])
    ensures forall t :: t in result <==> t == [0, 0, 0]
  {
    assert multiset([0, 0, 0]) == multiset{0, 0, 0};
    assert DrawnFrom([0, 0, 0], [0, 0, 0]);
    forall t | DrawnFrom(t, [0, 0, 0])
      ensures t == [0, 0, 0]
    {
      assert t[0] in multiset{0, 0, 0} && t[2] in multiset{0, 0, 0};
      Three(t);
    }
  }
}
