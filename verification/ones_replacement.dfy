/** The longest run of 1s that replacing at most `k` other elements would
    give. The scan keeps the number of 1s in its window and shrinks from the
    left while the window holds more than `k` other elements. Every element
    that is not exactly 1 counts as one to replace. */
module OnesReplacement {
  import opened Seqs
  import opened Windows

  /** The number of elements of `w` equal to 1. */
  function Ones(w: seq<int>): (r: nat)
    ensures r <= |w|
    decreases |w|
  {
    if |w| == 0 then 0 else Ones(w[..|w| - 1]) + (if w[|w| - 1] == 1 then 1 else 0)
  }

  /** `Ones` is the multiplicity of 1 in the multiset of `w`. */
  lemma {:induction false} OnesIsMultiplicity(w: seq<int>)
    ensures Ones(w) == multiset(w)[1]
    decreases |w|
  {
    if |w| > 0 {
      assert w == w[..|w| - 1] + [w[|w| - 1]];
      OnesIsMultiplicity(w[..|w| - 1]);
    }
  }

  /** The elements of `w` that must be replaced: `len(window) - one_counter`. */
  function Zeros(w: seq<int>): nat {
    |w| - Ones(w)
  }

  /** The window test of the scan: at most `k` elements to replace. */
  function FewZeros(k: nat): seq<int> -> bool {
    (w: seq<int>) => Zeros(w) <= k
  }

  lemma EmptyFewZeros(k: nat)
    ensures FewZeros(k)([])
  {
  }

  /** Counting the element that enters on the right. */
  lemma OnesExtend(s: seq<int>, i: nat, j: nat)
    requires i <= j < |s|
    ensures Ones(s[i..j + 1]) == Ones(s[i..j]) + (if s[j] == 1 then 1 else 0)
  {
    assert s[i..j + 1][..j - i] == s[i..j];
  }

  /** Uncounting the element that leaves on the left. */
  lemma {:induction false} OnesShrink(s: seq<int>, i: nat, j: nat)
    requires i < j <= |s|
    ensures Ones(s[i..j]) == (if s[i] == 1 then 1 else 0) + Ones(s[i + 1..j])
    decreases j
  {
    if j == i + 1 {
      assert s[i..j][..0] == [];
    } else {
      OnesShrink(s, i, j - 1);
      OnesExtend(s, i, j - 1);
      OnesExtend(s, i + 1, j - 1);
    }
  }

  /** A window inside another holds no more elements to replace. */
  lemma {:induction false} ZerosInside(s: seq<int>, i: nat, i': nat, j': nat, j: nat)
    requires i <= i' <= j' <= j <= |s|
    ensures Zeros(s[i'..j']) <= Zeros(s[i..j])
    decreases (i' - i) + (j - j')
  {
    if i < i' {
      ZerosInside(s, i + 1, i', j', j);
      OnesShrink(s, i, j);
    } else if j' < j {
      ZerosInside(s, i, i', j', j - 1);
      OnesExtend(s, i, j - 1);
    }
  }

  /** Growing the right end never moves the first passing start left. */
  lemma FirstStartGrows(s: seq<int>, k: nat, e: nat)
    requires e < |s|
    ensures FirstStart(FewZeros(k), s, e, 0) <= FirstStart(FewZeros(k), s, e + 1, 0)
  {
    EmptyFewZeros(k);
    var f := FirstStart(FewZeros(k), s, e, 0);
    var g := FirstStart(FewZeros(k), s, e + 1, 0);
    if g < f {
      assert !FewZeros(k)(s[g..e]);
      ZerosInside(s, g, g, e, e + 1);
      assert false;
    }
  }

  /** `r` is the length of the longest suffix of `arr` with at most `k`
      elements to replace: the window the scan ends with. */
  ghost predicate LongestFixableSuffix(arr: seq<int>, k: nat, r: nat) {
    && r <= |arr|
    && Zeros(arr[|arr| - r..|arr|]) <= k
    && forall i :: 0 <= i < |arr| - r ==> Zeros(arr[i..|arr|]) > k
  }

  /** At most one length is the longest fixable suffix. */
  lemma LongestFixableSuffixUnique(arr: seq<int>, k: nat, r1: nat, r2: nat)
    requires LongestFixableSuffix(arr, k, r1) && LongestFixableSuffix(arr, k, r2)
    ensures r1 == r2
  {
  }

  /** `r` is the length of the longest window of `arr` with at most `k`
      elements to replace: the answer the problem asks for. */
  ghost predicate LongestFixable(arr: seq<int>, k: nat, r: nat) {
    && (forall i, j :: 0 <= i <= j <= |arr| && Zeros(arr[i..j]) <= k ==> j - i <= r)
    && (exists i, j :: 0 <= i <= j <= |arr| && Zeros(arr[i..j]) <= k && j - i == r)
  }

  /** At most one length is the longest. */
  lemma LongestFixableUnique(arr: seq<int>, k: nat, r1: nat, r2: nat)
    requires LongestFixable(arr, k, r1) && LongestFixable(arr, k, r2)
    ensures r1 == r2
  {
    var i1, j1 :| 0 <= i1 <= j1 <= |arr| && Zeros(arr[i1..j1]) <= k && j1 - i1 == r1;
    var i2, j2 :| 0 <= i2 <= j2 <= |arr| && Zeros(arr[i2..j2]) <= k && j2 - i2 == r2;
  }

  /** The first passing start of the whole array is where the longest
      fixable suffix begins. */
  lemma SuffixFromFirstStart(arr: seq<int>, k: nat)
    ensures LongestFixableSuffix(arr, k, |arr| - FirstStart(FewZeros(k), arr, |arr|, 0))
  {
    EmptyFewZeros(k);
    var f := FirstStart(FewZeros(k), arr, |arr|, 0);
    assert FewZeros(k)(arr[f..|arr|]);
    forall i | 0 <= i < f
      ensures Zeros(arr[i..|arr|]) > k
    {
      assert !FewZeros(k)(arr[i..|arr|]);
    }
  }

  /** One element entering on the right: count it, then drop elements on the
      left while the window holds more than `k` to replace. The loop stops
      exactly at the first passing start, since every start it drops fails. */
  method OnesTurn(arr: seq<int>, k: nat, e: nat, left0: nat, ones0: nat)
    returns (left: nat, ones: nat)
    requires e < |arr|
    requires left0 == FirstStart(FewZeros(k), arr, e, 0)
    requires ones0 == Ones(arr[left0..e])
    ensures left == FirstStart(FewZeros(k), arr, e + 1, 0)
    ensures ones == Ones(arr[left..e + 1])
    ensures e + 1 - left - ones <= k
  {
    EmptyFewZeros(k);
    FirstStartGrows(arr, k, e);
    ones := CountRight(arr, left0, e, ones0);
    left, ones := ShrinkOnes(arr, k, left0, e + 1, ones);
    StopsAtFirst(arr, k, left, e + 1, ones);
  }

  /** The `while` loop: drop elements on the left while the window holds
      more than `k` to replace, never past the first passing start. */
  method ShrinkOnes(arr: seq<int>, k: nat, left0: nat, e: nat, ones0: nat)
    returns (left: nat, ones: nat)
    requires left0 <= e <= |arr|
    requires left0 <= FirstStart(FewZeros(k), arr, e, 0)
    requires ones0 == Ones(arr[left0..e])
    ensures left0 <= left <= FirstStart(FewZeros(k), arr, e, 0)
    ensures ones == Ones(arr[left..e])
    ensures e - left - ones <= k
  {
    ghost var first := FirstStart(FewZeros(k), arr, e, 0);
    left, ones := left0, ones0;
    while e - left - ones > k
      invariant left0 <= left <= first
      invariant ones == Ones(arr[left..e])
      decreases e - left
    {
      DropFails(arr, k, left, e, ones, first);
      ones := UncountLeft(arr, left, e, ones);
      left := left + 1;
    }
  }

  /** `if arr[right_ptr] == 1: one_counter += 1`. */
  method CountRight(arr: seq<int>, left: nat, e: nat, ones0: nat) returns (ones: nat)
    requires left <= e < |arr|
    requires ones0 == Ones(arr[left..e])
    ensures ones == Ones(arr[left..e + 1])
  {
    OnesExtend(arr, left, e);
    ones := ones0;
    if arr[e] == 1 {
      ones := ones + 1;
    }
  }

  /** `if arr[left_ptr] == 1: one_counter -= 1`. */
  method UncountLeft(arr: seq<int>, left: nat, e: nat, ones0: nat) returns (ones: nat)
    requires left < e <= |arr|
    requires ones0 == Ones(arr[left..e])
    ensures ones == Ones(arr[left + 1..e])
  {
    OnesShrink(arr, left, e);
    ones := ones0;
    if arr[left] == 1 {
      ones := ones - 1;
    }
  }

  /** A start the loop drops fails the test, so it lies before the first
      passing start. */
  lemma DropFails(arr: seq<int>, k: nat, left: nat, e: nat, ones: nat, first: nat)
    requires left <= e <= |arr|
    requires first == FirstStart(FewZeros(k), arr, e, 0)
    requires left <= first
    requires ones == Ones(arr[left..e])
    requires e - left - ones > k
    ensures left < e && left < first
  {
    EmptyFewZeros(k);
    assert !FewZeros(k)(arr[left..e]);
  }

  /** A start at or before the first passing start whose window passes is
      the first passing start. */
  lemma StopsAtFirst(arr: seq<int>, k: nat, left: nat, e: nat, ones: nat)
    requires left <= e <= |arr|
    requires left <= FirstStart(FewZeros(k), arr, e, 0)
    requires ones == Ones(arr[left..e])
    requires e - left - ones <= k
    ensures left == FirstStart(FewZeros(k), arr, e, 0)
  {
    EmptyFewZeros(k);
    assert FewZeros(k)(arr[left..e]);
  }

  /** `length_of_longest_substring`: `max_length` is overwritten by every
      turn rather than maximised, so the answer is the length of the final
      window, the longest fixable suffix, and not the longest fixable
      window. */
  method LengthOfLongestSubstring(arr: seq<int>, k: nat) returns (maxLength: nat)
    ensures LongestFixableSuffix(arr, k, maxLength)
  {
    EmptyFewZeros(k);
    var leftPtr: nat := 0;
    var oneCounter: nat := 0;
    maxLength := 0;
    for rightPtr := 0 to |arr|
      invariant leftPtr == FirstStart(FewZeros(k), arr, rightPtr, 0)
      invariant oneCounter == Ones(arr[leftPtr..rightPtr])
      invariant maxLength == rightPtr - leftPtr
    {
      leftPtr, oneCounter := OnesTurn(arr, k, rightPtr, leftPtr, oneCounter);
      maxLength := Max(rightPtr - leftPtr + 1, oneCounter);
    }
    SuffixFromFirstStart(arr, k);
  }

  /** `sol_longest_substring`: the same loop; `max_length` is first bound
      inside it, so an empty array has no answer. */
  method SolLongestSubstring(arr: seq<int>, k: nat) returns (maxLength: nat)
    requires |arr| >= 1
    ensures LongestFixableSuffix(arr, k, maxLength)
  {
    maxLength := LengthOfLongestSubstring(arr, k);
  }

  /** The scan with `max_length = max(max_length, ...)`: the longest fixable
      window. */
  method LongestOnesAfterReplacement(arr: seq<int>, k: nat) returns (maxLength: nat)
    ensures LongestFixable(arr, k, maxLength)
  {
    EmptyFewZeros(k);
    var leftPtr: nat := 0;
    var oneCounter: nat := 0;
    maxLength := 0;
    for rightPtr := 0 to |arr|
      invariant leftPtr == FirstStart(FewZeros(k), arr, rightPtr, 0)
      invariant oneCounter == Ones(arr[leftPtr..rightPtr])
      invariant maxLength == Longest(FewZeros(k), arr, rightPtr)
    {
      leftPtr, oneCounter, maxLength := MaxTurn(arr, k, rightPtr, leftPtr, oneCounter, maxLength);
    }
    LongestIsFixable(arr, k);
  }

  /** One turn of the maximising scan: the same window, then the longer of
      it and the best so far. */
  method MaxTurn(arr: seq<int>, k: nat, e: nat, left0: nat, ones0: nat, max0: nat)
    returns (left: nat, ones: nat, maxLength: nat)
    requires e < |arr|
    requires left0 == FirstStart(FewZeros(k), arr, e, 0)
    requires ones0 == Ones(arr[left0..e])
    requires max0 == Longest(FewZeros(k), arr, e)
    ensures left == FirstStart(FewZeros(k), arr, e + 1, 0)
    ensures ones == Ones(arr[left..e + 1])
    ensures maxLength == Longest(FewZeros(k), arr, e + 1)
  {
    left, ones := OnesTurn(arr, k, e, left0, ones0);
    RecordFirst(arr, k, e, left, max0);
    maxLength := Max(max0, e + 1 - left);
  }

  /** The window from the first passing start, recorded against the best
      so far, gives the best one element further on. */
  lemma RecordFirst(arr: seq<int>, k: nat, e: nat, left: nat, max0: nat)
    requires e < |arr|
    requires left == FirstStart(FewZeros(k), arr, e + 1, 0)
    requires max0 == Longest(FewZeros(k), arr, e)
    ensures Max(max0, e + 1 - left) == Longest(FewZeros(k), arr, e + 1)
  {
    EmptyFewZeros(k);
    LongestStep(FewZeros(k), arr, e);
  }

  /** `Longest` over the scan's test, read back as the longest fixable
      window. */
  lemma LongestIsFixable(arr: seq<int>, k: nat)
    ensures LongestFixable(arr, k, Longest(FewZeros(k), arr, |arr|))
  {
    EmptyFewZeros(k);
    var r := Longest(FewZeros(k), arr, |arr|);
    forall i, j | 0 <= i <= j <= |arr| && Zeros(arr[i..j]) <= k
      ensures j - i <= r
    {
      assert FewZeros(k)(arr[i..j]);
    }
    var i, j :| 0 <= i <= j <= |arr| && FewZeros(k)(arr[i..j]) && j - i == r;
  }

  /** A suffix that passes while the one element longer fails is the
      longest fixable suffix. */
  lemma SuffixAt(arr: seq<int>, k: nat, r: nat)
    requires r <= |arr|
    requires Zeros(arr[|arr| - r..|arr|]) <= k
    requires r == |arr| || Zeros(arr[|arr| - r - 1..|arr|]) > k
    ensures LongestFixableSuffix(arr, k, r)
  {
    forall i | 0 <= i < |arr| - r
      ensures Zeros(arr[i..|arr|]) > k
    {
      ZerosInside(arr, i, |arr| - r - 1, |arr|, |arr|);
    }
  }

  /** The suffix of length 6 of the first test array is its longest
      fixable suffix with 2 replacements. */
  lemma SuffixSix()
    ensures LongestFixableSuffix([0, 1, 1, 0, 0, 0, 1, 1, 0, 1, 1], 2, 6)
  {
    var arr := [0, 1, 1, 0, 0, 0, 1, 1, 0, 1, 1];
    OnesSix(arr);
    SuffixAt(arr, 2, 6);
  }

  lemma OnesSix(arr: seq<int>)
    requires arr == [0, 1, 1, 0, 0] + [0, 1, 1, 0, 1, 1]
    ensures Ones(arr[5..11]) == 4 && Ones(arr[4..11]) == 4
  {
    var w := [0, 1, 1, 0, 1, 1];
    assert arr[5..11] == w;
    OnesIsMultiplicity(w);
    assert multiset(w)[1] == 4;
    OnesShrink(arr, 4, 11);
  }

  /** `length_of_longest_substring([0, 1, 1, 0, 0, 0, 1, 1, 0, 1, 1], 2) == 6`. */
  lemma ExampleOne(r: nat)
    requires LongestFixableSuffix([0, 1, 1, 0, 0, 0, 1, 1, 0, 1, 1], 2, r)
    ensures r == 6
  {
    SuffixSix();
    LongestFixableSuffixUnique([0, 1, 1, 0, 0, 0, 1, 1, 0, 1, 1], 2, r, 6);
  }

  /** The suffix of length 9 of the second test array is its longest
      fixable suffix with 3 replacements. */
  lemma SuffixNine()
    ensures LongestFixableSuffix([0, 1, 0, 0, 1, 1, 0, 1, 1, 0, 0, 1, 1], 3, 9)
  {
    var arr := [0, 1, 0, 0, 1, 1, 0, 1, 1, 0, 0, 1, 1];
    OnesNine(arr);
    SuffixAt(arr, 3, 9);
  }

  lemma OnesNine(arr: seq<int>)
    requires arr == [0, 1, 0, 0] + [1, 1, 0, 1, 1, 0, 0, 1, 1]
    ensures Ones(arr[4..13]) == 6 && Ones(arr[3..13]) == 6
  {
    var w := [1, 1, 0, 1, 1, 0, 0, 1, 1];
    assert arr[4..13] == w;
    OnesIsMultiplicity(w);
    assert multiset(w)[1] == 6;
    OnesShrink(arr, 3, 13);
  }

  /** `length_of_longest_substring([0, 1, 0, 0, 1, 1, 0, 1, 1, 0, 0, 1, 1], 3) == 9`. */
  lemma ExampleTwo(r: nat)
    requires LongestFixableSuffix([0, 1, 0, 0, 1, 1, 0, 1, 1, 0, 0, 1, 1], 3, r)
    ensures r == 9
  {
    SuffixNine();
    LongestFixableSuffixUnique([0, 1, 0, 0, 1, 1, 0, 1, 1, 0, 0, 1, 1], 3, r, 9);
  }

  /** On `[1, 1, 0]` with no replacement the scan answers 0: its final window
      is empty, although the window `[1, 1]` needs no replacement. */
  lemma FinalWindowOnly(r: nat)
    requires LongestFixableSuffix([1, 1, 0], 0, r)
    ensures r == 0
    ensures Zeros([1, 1, 0][0..2]) == 0
  {
    var arr := [1, 1, 0];
    assert arr[3..3] == [];
    assert arr[2..3] == [0];
    OnesIsMultiplicity([0]);
    SuffixAt(arr, 0, 0);
    LongestFixableSuffixUnique(arr, 0, r, 0);
    assert arr[0..2] == [1, 1];
    OnesIsMultiplicity([1, 1]);
  }

  /** The maximising scan answers 2 on the same input. */
  lemma FinalWindowOnlyCorrected(r: nat)
    requires LongestFixable([1, 1, 0], 0, r)
    ensures r == 2
  {
    var arr := [1, 1, 0];
    assert arr[0..2] == [1, 1];
    OnesIsMultiplicity([1, 1]);
    assert Zeros(arr[0..2]) <= 0;
    forall i, j | 0 <= i <= j <= 3 && j - i > 2
      ensures Zeros(arr[i..j]) > 0
    {
      assert arr[i..j] == arr;
      OnesIsMultiplicity(arr);
    }
    LongestFixableUnique(arr, 0, r, 2);
  }
}
