/** The longest substring that at most `k` letter replacements turn into a
    run of one letter. The scan keeps the letter counts of its window and the
    largest count `longest_count` taken when the right end arrives; it then
    shrinks from the left against that count, without recomputing it. */
module LetterReplacement {
  import opened Seqs
  import opened Windows

  /** `w` can be made a run of one of its letters by replacing at most `k`
      letters. */
  ghost predicate Fixable<T>(w: seq<T>, k: nat) {
    |w| == 0 || exists p :: 0 <= p < |w| && |w| - multiset(w)[w[p]] <= k
  }

  /** `r` is the length of the longest substring of `s` that at most `k`
      replacements make uniform. */
  ghost predicate LongestFixable<T>(s: seq<T>, k: nat, r: nat) {
    && (forall i, j :: 0 <= i <= j <= |s| && Fixable(s[i..j], k) ==> j - i <= r)
    && (exists i, j :: 0 <= i <= j <= |s| && Fixable(s[i..j], k) && j - i == r)
  }

  /** At most one length is the longest. */
  lemma LongestFixableUnique<T>(s: seq<T>, k: nat, r1: nat, r2: nat)
    requires LongestFixable(s, k, r1) && LongestFixable(s, k, r2)
    ensures r1 == r2
  {
    var i1, j1 :| 0 <= i1 <= j1 <= |s| && Fixable(s[i1..j1], k) && j1 - i1 == r1;
    var i2, j2 :| 0 <= i2 <= j2 <= |s| && Fixable(s[i2..j2], k) && j2 - i2 == r2;
  }

  /** The number of occurrences of `x` in `w`. */
  ghost function Count<T>(w: seq<T>, x: T): nat
    decreases |w|
  {
    if |w| == 0 then 0 else Count(w[..|w| - 1], x) + (if w[|w| - 1] == x then 1 else 0)
  }

  /** `Count` is the multiplicity in the multiset of `w`. */
  lemma {:induction false} CountIsMultiplicity<T>(w: seq<T>, x: T)
    ensures Count(w, x) == multiset(w)[x]
    decreases |w|
  {
    if |w| > 0 {
      assert w == w[..|w| - 1] + [w[|w| - 1]];
      CountIsMultiplicity(w[..|w| - 1], x);
    }
  }

  /** The largest count in `w` among the letters `w[..n]`. */
  ghost function ModeUpTo<T>(w: seq<T>, n: nat): nat
    requires n <= |w|
    decreases n
  {
    if n == 0 then 0 else Max(ModeUpTo(w, n - 1), Count(w, w[n - 1]))
  }

  /** The count of the most frequent letter of `w`. */
  ghost function Mode<T>(w: seq<T>): nat {
    ModeUpTo(w, |w|)
  }

  lemma {:induction false} ModeUpToBound<T>(w: seq<T>, n: nat, p: nat)
    requires p < n <= |w|
    ensures Count(w, w[p]) <= ModeUpTo(w, n)
    decreases n
  {
    if p < n - 1 {
      ModeUpToBound(w, n - 1, p);
    }
  }

  lemma {:induction false} ModeUpToAttained<T>(w: seq<T>, n: nat) returns (p: nat)
    requires 0 < n <= |w|
    ensures p < n && Count(w, w[p]) == ModeUpTo(w, n)
    decreases n
  {
    if n == 1 || Count(w, w[n - 1]) >= ModeUpTo(w, n - 1) {
      p := n - 1;
    } else {
      p := ModeUpToAttained(w, n - 1);
    }
  }

  /** No letter occurs more often than the mode. */
  lemma ModeBound<T>(w: seq<T>, x: T)
    ensures multiset(w)[x] <= Mode(w)
  {
    if x in w {
      var p :| 0 <= p < |w| && w[p] == x;
      ModeUpToBound(w, |w|, p);
      CountIsMultiplicity(w, x);
    }
  }

  /** Some letter of a non-empty `w` occurs as often as the mode. */
  lemma ModeAttained<T>(w: seq<T>) returns (p: nat)
    requires |w| > 0
    ensures p < |w| && multiset(w)[w[p]] == Mode(w)
  {
    p := ModeUpToAttained(w, |w|);
    CountIsMultiplicity(w, w[p]);
  }

  /** A bound on every count that some letter reaches is the mode. */
  lemma ModeOfCounts<T>(w: seq<T>, r: nat, x: T)
    requires forall y :: multiset(w)[y] <= r
    requires multiset(w)[x] == r
    ensures r == Mode(w)
  {
    ModeBound(w, x);
    if |w| > 0 {
      var p := ModeAttained(w);
    }
  }

  /** Fixable is the mode test: the letters to replace are all but the most
      frequent one. */
  lemma FixableIsMode<T>(w: seq<T>, k: nat)
    ensures Fixable(w, k) <==> |w| - Mode(w) <= k
  {
    if |w| > 0 {
      var p := ModeAttained(w);
      if Fixable(w, k) {
        var q :| 0 <= q < |w| && |w| - multiset(w)[w[q]] <= k;
        ModeBound(w, w[q]);
      }
    }
  }

  /** The window test of the scan, in terms of the mode. */
  ghost function Within<T>(k: nat): seq<T> -> bool {
    (w: seq<T>) => |w| - Mode(w) <= k
  }

  /** The empty window passes. */
  lemma EmptyWithin<T>(k: nat)
    ensures Within<T>(k)([])
  {
  }

  /** A letter occurs in a sequence no more often than its length. */
  lemma {:induction false} CountAtMostLength<T>(u: seq<T>, x: T)
    ensures multiset(u)[x] <= |u|
    decreases |u|
  {
    if |u| > 0 {
      assert u == [u[0]] + u[1..];
      CountAtMostLength(u[1..], x);
    }
  }

  /** The counts of a window split over three consecutive pieces. */
  lemma CountSplit<T>(s: seq<T>, i: int, i': int, j': int, j: int, x: T)
    requires 0 <= i <= i' <= j' <= j <= |s|
    ensures multiset(s[i..j])[x] == multiset(s[i..i'])[x] + multiset(s[i'..j'])[x] + multiset(s[j'..j])[x]
  {
    assert s[i..j] == s[i..i'] + s[i'..j'] + s[j'..j];
  }

  /** A sub-window needs no more replacements than the window. */
  lemma Inside<T>(s: seq<T>, i: int, i': int, j': int, j: int)
    requires 0 <= i <= i' <= j' <= j <= |s|
    ensures (j' - i') - Mode(s[i'..j']) <= (j - i) - Mode(s[i..j])
  {
    if i < j {
      var outer := s[i..j];
      var p := ModeAttained(outer);
      var x := outer[p];
      CountSplit(s, i, i', j', j, x);
      CountAtMostLength(s[i..i'], x);
      CountAtMostLength(s[j'..j], x);
      ModeBound(s[i'..j'], x);
    }
  }

  /** A sub-window's mode is no larger than the window's. */
  lemma ModeInside<T>(s: seq<T>, i: int, i': int, j': int, j: int)
    requires 0 <= i <= i' <= j' <= j <= |s|
    ensures Mode(s[i'..j']) <= Mode(s[i..j])
  {
    if i' < j' {
      var inner := s[i'..j'];
      var p := ModeAttained(inner);
      var x := inner[p];
      CountSplit(s, i, i', j', j, x);
      ModeBound(s[i..j], x);
    }
  }

  /** Growing the right end never moves the first passing start left. */
  lemma FirstStartGrows<T>(s: seq<T>, k: nat, e: nat)
    requires e < |s|
    ensures FirstStart(Within(k), s, e, 0) <= FirstStart(Within(k), s, e + 1, 0)
  {
    EmptyWithin<T>(k);
    var f := FirstStart(Within(k), s, e, 0);
    var g := FirstStart(Within(k), s, e + 1, 0);
    if g < f {
      assert !Within(k)(s[g..e]);
      Inside(s, g, g, e, e + 1);
      assert false;
    }
  }

  /** `max(letter_counter.values())`: the largest count in the dictionary. */
  method MaxValue<T(==)>(counts: multiset<T>) returns (r: nat)
    ensures forall x :: counts[x] <= r
    ensures counts != multiset{} ==> exists x :: counts[x] == r
  {
    r := 0;
    var keys := set x | x in counts;
    while keys != {}
      invariant keys <= set x | x in counts
      invariant forall x :: x !in keys ==> counts[x] <= r
      invariant r == 0 || exists x :: counts[x] == r
      decreases |keys|
    {
      var x :| x in keys;
      r := Max(r, counts[x]);
      keys := keys - {x};
    }
  }

  /** `longest_count`: the largest count of the window's dictionary is the
      count of the window's most frequent letter. */
  method LongestCount<T(==)>(s: seq<T>, i: nat, j: nat, counts: multiset<T>) returns (r: nat)
    requires i < j <= |s|
    requires counts == multiset(s[i..j])
    ensures r == Mode(s[i..j])
  {
    r := MaxValue(counts);
    assert s[i..j][0] in counts;
    var x :| counts[x] == r;
    ModeOfCounts(s[i..j], r, x);
  }

  /** The `while` loop: drops letters from the left while the window is
      longer than `longest_count + k`. It stops at or before the first
      passing start: there the window holds at most `k` letters other than
      its most frequent one, and `longest_count` is at least that count. */
  method ShrinkAgainst<T(==)>(s: seq<T>, k: nat, start0: nat, e: nat, counts0: multiset<T>, longestCount: nat)
    returns (start: nat, counts: multiset<T>)
    requires start0 <= e <= |s|
    requires start0 <= FirstStart(Within(k), s, e, 0)
    requires counts0 == multiset(s[start0..e])
    requires longestCount == Mode(s[start0..e])
    ensures start0 <= start <= FirstStart(Within(k), s, e, 0)
    ensures counts == multiset(s[start..e])
    ensures e - start - longestCount <= k
  {
    EmptyWithin<T>(k);
    ghost var first := FirstStart(Within(k), s, e, 0);
    start, counts := start0, counts0;
    while e - start - longestCount > k
      invariant start0 <= start <= first
      invariant counts == multiset(s[start..e])
      decreases e - start
    {
      DropAgainst(s, k, start0, start, e, longestCount, first);
      counts := DropLeft(s, start, e, counts);
      start := start + 1;
    }
  }

  /** A start the loop drops fails the test, so it lies before the first
      passing start. */
  lemma DropAgainst<T>(s: seq<T>, k: nat, start0: nat, start: nat, e: nat, longestCount: nat, first: nat)
    requires start0 <= start <= e <= |s|
    requires first == FirstStart(Within(k), s, e, 0)
    requires start <= first
    requires longestCount == Mode(s[start0..e])
    requires e - start - longestCount > k
    ensures start < e && start < first
  {
    EmptyWithin<T>(k);
    ModeInside(s, start0, start, e, e);
    assert !Within(k)(s[start..e]);
  }

  /** Uncounting the letter that leaves on the left. Its count is at least
      1, since it is in the window, so the first version's `del` branch for
      a zero count is never taken. */
  method DropLeft<T(==)>(s: seq<T>, start: nat, e: nat, counts0: multiset<T>) returns (counts: multiset<T>)
    requires start < e <= |s|
    requires counts0 == multiset(s[start..e])
    ensures counts == multiset(s[start + 1..e])
  {
    var leftChar := s[start];
    assert s[start..e][0] == leftChar;
    if counts0[leftChar] == 0 {
      assert false;
    }
    DropFirst(s, start, e);
    counts := counts0[leftChar := counts0[leftChar] - 1];
  }

  /** A passing window that starts at or before the first passing start
      starts there. */
  lemma PassingAtOrBefore<T>(s: seq<T>, k: nat, start: nat, e: nat)
    requires start <= e <= |s|
    requires start <= FirstStart(Within(k), s, e, 0)
    requires e - start - Mode(s[start..e]) <= k
    ensures start == FirstStart(Within(k), s, e, 0)
  {
    EmptyWithin<T>(k);
    assert Within(k)(s[start..e]);
  }

  /** One turn of the `for` loop: count the letter entering on the right,
      take `longest_count`, shrink, and record the window. */
  method ReplaceTurn<T(==)>(s: seq<T>, k: nat, e: nat, start0: nat, counts0: multiset<T>, max0: nat)
    returns (start: nat, counts: multiset<T>, maxLength: nat)
    requires e < |s|
    requires start0 <= FirstStart(Within(k), s, e, 0)
    requires counts0 == multiset(s[start0..e])
    requires e - start0 <= max0
    requires max0 == Longest(Within(k), s, e)
    ensures start <= FirstStart(Within(k), s, e + 1, 0)
    ensures counts == multiset(s[start..e + 1])
    ensures e + 1 - start <= maxLength
    ensures maxLength == Longest(Within(k), s, e + 1)
  {
    var longestCount;
    counts, longestCount := AddRight(s, start0, e, counts0);
    FirstStartGrows(s, k, e);
    start, counts := ShrinkAgainst(s, k, start0, e + 1, counts, longestCount);
    RecordTurn(s, k, start0, start, e + 1, longestCount, max0);
    maxLength := Max(max0, e + 1 - start);
  }

  /** The window the loop keeps is a longest one so far: either the loop
      dropped nothing, and the window passes from the first passing start,
      or it dropped a letter, and the window is no longer than before. */
  lemma RecordTurn<T>(s: seq<T>, k: nat, start0: nat, start: nat, e: nat, longestCount: nat, max0: nat)
    requires 1 <= e <= |s|
    requires start0 <= start <= FirstStart(Within(k), s, e, 0)
    requires longestCount == Mode(s[start0..e])
    requires e - start - longestCount <= k
    requires e - 1 - start0 <= max0
    requires max0 == Longest(Within(k), s, e - 1)
    ensures Max(max0, e - start) == Longest(Within(k), s, e)
  {
    EmptyWithin<T>(k);
    if start == start0 {
      PassingAtOrBefore(s, k, start, e);
    }
    RecordWindow(Within(k), s, start, e, max0);
  }

  /** Counting the letter that enters on the right, then `longest_count`. */
  method AddRight<T(==)>(s: seq<T>, start0: nat, e: nat, counts0: multiset<T>)
    returns (counts: multiset<T>, longestCount: nat)
    requires start0 <= e < |s|
    requires counts0 == multiset(s[start0..e])
    ensures counts == multiset(s[start0..e + 1])
    ensures longestCount == Mode(s[start0..e + 1])
  {
    var rightChar := s[e];
    AddLast(s, start0, e);
    counts := counts0[rightChar := counts0[rightChar] + 1];
    longestCount := LongestCount(s, start0, e + 1, counts);
  }

  /** The scan's reference length, read back as the longest fixable
      substring. */
  lemma LongestIsFixable<T>(s: seq<T>, k: nat)
    ensures LongestFixable(s, k, Longest(Within(k), s, |s|))
  {
    var r := Longest(Within(k), s, |s|);
    forall i, j | 0 <= i <= j <= |s| && Fixable(s[i..j], k)
      ensures j - i <= r
    {
      FixableIsMode(s[i..j], k);
      assert Within(k)(s[i..j]);
    }
    var i, j :| 0 <= i <= j <= |s| && Within(k)(s[i..j]) && j - i == r;
    FixableIsMode(s[i..j], k);
  }

  /** `length_of_longest_substring`: the length of the longest substring
      that at most `k` replacements make a run of one letter. */
  method LengthOfLongestSubstring<T(==)>(str: seq<T>, k: nat) returns (maxLength: nat)
    ensures LongestFixable(str, k, maxLength)
  {
    var leftPtr: nat := 0;
    var letterCounter: multiset<T> := multiset{};
    maxLength := 0;
    EmptyWithin<T>(k);
    for rightPtr := 0 to |str|
      invariant leftPtr <= rightPtr
      invariant leftPtr <= FirstStart(Within(k), str, rightPtr, 0)
      invariant letterCounter == multiset(str[leftPtr..rightPtr])
      invariant rightPtr - leftPtr <= maxLength
      invariant maxLength == Longest(Within(k), str, rightPtr)
    {
      leftPtr, letterCounter, maxLength := ReplaceTurn(str, k, rightPtr, leftPtr, letterCounter, maxLength);
    }
    LongestIsFixable(str, k);
  }

  /** `sol_length_of_longest_substring`: the same loop with a `defaultdict`
      and without the dead `del` branch, so the same answer. */
  method SolLengthOfLongestSubstring<T(==)>(str: seq<T>, k: nat) returns (maxLength: nat)
    ensures LongestFixable(str, k, maxLength)
  {
    maxLength := LengthOfLongestSubstring(str, k);
  }

  /** A window inside a fixable window is fixable. */
  lemma FixableInside<T>(s: seq<T>, k: nat, i: int, i': int, j': int, j: int)
    requires 0 <= i <= i' <= j' <= j <= |s|
    requires Fixable(s[i..j], k)
    ensures Fixable(s[i'..j'], k)
  {
    FixableIsMode(s[i..j], k);
    FixableIsMode(s[i'..j'], k);
    Inside(s, i, i', j', j);
  }

  /** A window whose every letter occurs at most `bound` times, with more
      than `k` letters beyond `bound`, is not fixable. */
  lemma NotFixable<T>(w: seq<T>, k: nat, bound: nat)
    requires forall c :: multiset(w)[c] <= bound
    requires |w| - bound > k
    ensures !Fixable(w, k)
  {
  }

  /** The window of length `n` from `i` is fixable. */
  ghost predicate FixableAt<T>(s: seq<T>, k: nat, i: nat, n: nat)
    requires i + n <= |s|
  {
    Fixable(s[i..i + n], k)
  }

  /** When no window of length `n` is fixable, no longer one is. */
  lemma LongerNotFixable<T>(s: seq<T>, k: nat, n: nat)
    requires forall i :: 0 <= i <= |s| - n ==> !FixableAt(s, k, i, n)
    ensures forall i, j :: 0 <= i <= j <= |s| && Fixable(s[i..j], k) ==> j - i < n
  {
    forall i, j | 0 <= i <= j <= |s| && Fixable(s[i..j], k)
      ensures j - i < n
    {
      if j - i >= n {
        assert !FixableAt(s, k, i, n);
        FixableInside(s, k, i, i, i + n, j);
        assert false;
      }
    }
  }

  /** `n - 1` is the longest fixable length when no window of length `n`
      is fixable and some window of length `n - 1` is. */
  lemma LongestFixableAt<T>(s: seq<T>, k: nat, n: nat, i: nat)
    requires 1 <= n && i + n - 1 <= |s|
    requires forall i' :: 0 <= i' <= |s| - n ==> !FixableAt(s, k, i', n)
    requires FixableAt(s, k, i, n - 1)
    ensures LongestFixable(s, k, n - 1)
  {
    LongerNotFixable(s, k, n);
  }

  /** Letter counts of the windows the examples rule out. */
  lemma CountsAabccb()
    ensures forall c :: multiset("aabccb")[c] <= 2
  {
  }

  lemma CountsAbccbb()
    ensures forall c :: multiset("abccbb")[c] <= 3
  {
  }

  /** A window of `s` whose letters all occur at most `bound` times, with
      more than `k` letters beyond `bound`, is not fixable. */
  lemma NotFixableAt<T>(s: seq<T>, k: nat, i: nat, n: nat, w: seq<T>, bound: nat)
    requires i + n <= |s| && s[i..i + n] == w
    requires forall c :: multiset(w)[c] <= bound
    requires n - bound > k
    ensures !FixableAt(s, k, i, n)
  {
    NotFixable(w, k, bound);
  }

  /** No window of length 6 of `"aabccbb"` is fixable with 2 replacements. */
  lemma NoSixFixable()
    ensures forall i :: 0 <= i <= 1 ==> !FixableAt("aabccbb", 2, i, 6)
  {
    var s := "aabccbb";
    forall i | 0 <= i <= 1
      ensures !FixableAt(s, 2, i, 6)
    {
      if i == 0 {
        CountsAabccb();
        NotFixableAt(s, 2, i, 6, "aabccb", 2);
      } else {
        CountsAbccbb();
        NotFixableAt(s, 2, i, 6, "abccbb", 3);
      }
    }
  }

  /** `length_of_longest_substring("aabccbb", 2) == 5`, from `"bccbb"`. */
  lemma ExampleOne(r: nat)
    requires LongestFixable("aabccbb", 2, r)
    ensures r == 5
  {
    var s := "aabccbb";
    NoSixFixable();
    assert s[2..7] == "bccbb";
    assert FixableAt(s, 2, 2, 5) by {
      var w := "bccbb";
      assert |w| - multiset(w)[w[0]] <= 2;
    }
    LongestFixableAt(s, 2, 6, 2);
    LongestFixableUnique(s, 2, r, 5);
  }

  lemma CountsAbbcb()
    ensures forall c :: multiset("abbcb")[c] <= 3
  {
  }

  /** `"abbcb"` is not fixable with 1 replacement. */
  lemma NoFiveFixable()
    ensures forall i :: 0 <= i <= 0 ==> !FixableAt("abbcb", 1, i, 5)
  {
    CountsAbbcb();
    NotFixableAt("abbcb", 1, 0, 5, "abbcb", 3);
  }

  /** `length_of_longest_substring("abbcb", 1) == 4`, from `"bbcb"`. */
  lemma ExampleTwo(r: nat)
    requires LongestFixable("abbcb", 1, r)
    ensures r == 4
  {
    var s := "abbcb";
    NoFiveFixable();
    assert s[1..5] == "bbcb";
    assert FixableAt(s, 1, 1, 4) by {
      var w := "bbcb";
      assert |w| - multiset(w)[w[0]] <= 1;
    }
    LongestFixableAt(s, 1, 5, 1);
    LongestFixableUnique(s, 1, r, 4);
  }

  lemma CountsAbcc()
    ensures forall c :: multiset("abcc")[c] <= 2
  {
  }

  lemma CountsBccd()
    ensures forall c :: multiset("bccd")[c] <= 2
  {
  }

  lemma CountsCcde()
    ensures forall c :: multiset("ccde")[c] <= 2
  {
  }

  /** No window of length 4 of `"abccde"` is fixable with 1 replacement. */
  lemma NoFourFixable()
    ensures forall i :: 0 <= i <= 2 ==> !FixableAt("abccde", 1, i, 4)
  {
    var s := "abccde";
    forall i | 0 <= i <= 2
      ensures !FixableAt(s, 1, i, 4)
    {
      if i == 0 {
        CountsAbcc();
        NotFixableAt(s, 1, i, 4, "abcc", 2);
      } else if i == 1 {
        CountsBccd();
        NotFixableAt(s, 1, i, 4, "bccd", 2);
      } else {
        CountsCcde();
        NotFixableAt(s, 1, i, 4, "ccde", 2);
      }
    }
  }

  /** `length_of_longest_substring("abccde", 1) == 3`, from `"bcc"`. */
  lemma ExampleThree(r: nat)
    requires LongestFixable("abccde", 1, r)
    ensures r == 3
  {
    var s := "abccde";
    NoFourFixable();
    assert s[1..4] == "bcc";
    assert FixableAt(s, 1, 1, 3) by {
      var w := "bcc";
      assert |w| - multiset(w)[w[1]] <= 1;
    }
    LongestFixableAt(s, 1, 4, 1);
    LongestFixableUnique(s, 1, r, 3);
  }
}
