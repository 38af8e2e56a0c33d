/** The longest substring with no more than `k` distinct characters, by a
    window whose character counts live in a dictionary. A dictionary of
    positive counts is a multiset: `d[c] += 1` adds one `c`, and
    "decrement, deleting the key at zero" removes one. `len(d)` is the number
    of distinct elements and `sum(d.values())` the multiset's size. */
module KDistinct {
  import opened Seqs
  import opened Windows

  /** The characters occurring in `w`. */
  function Chars<T>(w: seq<T>): set<T>
    decreases |w|
  {
    if |w| == 0 then {} else Chars(w[..|w| - 1]) + {w[|w| - 1]}
  }

  /** `Chars` holds exactly the elements of the sequence. */
  lemma {:induction false} CharsMember<T>(w: seq<T>, x: T)
    ensures x in Chars(w) <==> x in w
    decreases |w|
  {
    if |w| > 0 {
      CharsMember(w[..|w| - 1], x);
      assert w == w[..|w| - 1] + [w[|w| - 1]];
    }
  }

  /** A sequence drawn from `S` has no character outside `S`. */
  lemma {:induction false} CharsWithin<T>(w: seq<T>, S: set<T>)
    requires forall p :: 0 <= p < |w| ==> w[p] in S
    ensures Chars(w) <= S
    ensures Distinct(w) <= |S|
    decreases |w|
  {
    if |w| > 0 {
      CharsWithin(w[..|w| - 1], S);
    }
    SubsetCard(Chars(w), S);
  }

  /** A character at a position inside a window is in the window. */
  lemma InWindow<T>(s: seq<T>, i: int, j: int, p: int)
    requires 0 <= i <= p < j <= |s|
    ensures s[p] in s[i..j]
  {
    assert s[i..j][p - i] == s[p];
  }

  /** A window in which every character of `S` occurs has at least `|S|`
      distinct characters. */
  lemma CharsSeen<T>(w: seq<T>, S: set<T>)
    requires forall x :: x in S ==> x in w
    ensures Distinct(w) >= |S|
  {
    forall x | x in S
      ensures x in Chars(w)
    {
      CharsMember(w, x);
    }
    SubsetCard(S, Chars(w));
  }

  /** The number of distinct characters of `w`. */
  function Distinct<T(==)>(w: seq<T>): nat {
    |Chars(w)|
  }

  /** `len(d)` for a dictionary of positive counts. */
  function Kinds<T(==)>(m: multiset<T>): nat {
    |set x | x in m|
  }

  /** The window test: no more than `k` distinct characters. */
  function AtMost<T(==)>(k: nat): seq<T> -> bool {
    (w: seq<T>) => Distinct(w) <= k
  }

  /** A dictionary holding exactly the counts of a window has one key per
      distinct character of the window. */
  lemma KindsOfWindow<T>(w: seq<T>)
    ensures Kinds(multiset(w)) == Distinct(w)
  {
    var keys := set x | x in multiset(w);
    forall x | x in Chars(w)
      ensures x in keys
    {
      CharsMember(w, x);
    }
    forall x | x in keys
      ensures x in Chars(w)
    {
      CharsMember(w, x);
    }
    SubsetCard(keys, Chars(w));
    SubsetCard(Chars(w), keys);
  }

  /** A sub-window has no more distinct characters than the window. */
  lemma DistinctMono<T>(s: seq<T>, i: int, i': int, j': int, j: int)
    requires 0 <= i <= i' <= j' <= j <= |s|
    ensures Distinct(s[i'..j']) <= Distinct(s[i..j])
  {
    var inner, outer := s[i'..j'], s[i..j];
    assert Chars(inner) <= Chars(outer) by {
      forall x | x in Chars(inner)
        ensures x in Chars(outer)
      {
        CharsMember(inner, x);
        CharsMember(outer, x);
        var p :| 0 <= p < |inner| && inner[p] == x;
        assert outer[p + i' - i] == x;
      }
    }
    SubsetCard(Chars(inner), Chars(outer));
  }

  /** Growing the right end never moves the first passing start left: a
      start with more than `k` characters keeps them when the window grows. */
  lemma FirstStartGrows<T>(s: seq<T>, k: nat, e: nat)
    requires e < |s|
    ensures FirstStart(AtMost(k), s, e, 0) <= FirstStart(AtMost(k), s, e + 1, 0)
  {
    var f := FirstStart(AtMost(k), s, e, 0);
    var g := FirstStart(AtMost(k), s, e + 1, 0);
    if g < f {
      assert !AtMost(k)(s[g..e]);
      DistinctMono(s, g, g, e, e + 1);
      assert false;
    }
  }

  /** A window ending at `e` with exactly `k` distinct characters starts at
      or after the first passing start, and then the first passing window
      itself has exactly `k`. */
  lemma ExactAtEnd<T>(s: seq<T>, k: nat, i: nat, e: nat)
    requires i <= e <= |s|
    requires Distinct(s[i..e]) == k
    ensures FirstStart(AtMost(k), s, e, 0) <= i
    ensures Distinct(s[FirstStart(AtMost(k), s, e, 0)..e]) == k
  {
    var f := FirstStart(AtMost(k), s, e, 0);
    assert AtMost(k)(s[i..e]);
    DistinctMono(s, f, i, e, e);
  }

  /** The `while len(d) > k` loop: drops characters from the left until the
      window has at most `k` distinct ones, which is exactly at the first
      passing start. Both versions run it (the first one with a
      `defaultdict`, whose "delete at 1, else decrement" does the same). */
  method ShrinkToAtMost<T(==)>(s: seq<T>, k: nat, start0: nat, e: nat, counts0: multiset<T>)
    returns (start: nat, counts: multiset<T>)
    requires 0 <= start0 <= e <= |s|
    requires start0 <= FirstStart(AtMost(k), s, e, 0)
    requires counts0 == multiset(s[start0..e])
    ensures start == FirstStart(AtMost(k), s, e, 0)
    ensures counts == multiset(s[start..e])
    ensures Kinds(counts) <= k
  {
    start, counts := start0, counts0;
    KindsOfWindow(s[start..e]);
    while Kinds(counts) > k
      invariant start <= FirstStart(AtMost(k), s, e, 0)
      invariant counts == multiset(s[start..e])
      invariant Kinds(counts) == Distinct(s[start..e])
      decreases e - start
    {
      ShrinkStep(s, k, start, e);
      var left := s[start];
      counts := counts[left := counts[left] - 1];
      start := start + 1;
    }
    BeforeFirst(s, k, start, e);
  }

  /** One turn of the shrinking loop: a window with too many distinct
      characters starts before the first passing start, and dropping its
      first character decrements that character's count. */
  lemma ShrinkStep<T>(s: seq<T>, k: nat, start: nat, e: nat)
    requires start <= e <= |s|
    requires start <= FirstStart(AtMost(k), s, e, 0)
    requires Distinct(s[start..e]) > k
    ensures start < e && start + 1 <= FirstStart(AtMost(k), s, e, 0)
    ensures multiset(s[start..e])[s[start]] >= 1
    ensures multiset(s[start + 1..e]) == multiset(s[start..e])[s[start] := multiset(s[start..e])[s[start]] - 1]
    ensures Kinds(multiset(s[start + 1..e])) == Distinct(s[start + 1..e])
  {
    BeforeFirst(s, k, start, e);
    DropFirst(s, start, e);
    assert s[start] in s[start..e] by { assert s[start..e][0] == s[start]; }
    KindsOfWindow(s[start + 1..e]);
  }

  /** Up to the first passing start, a window passes exactly at that start. */
  lemma BeforeFirst<T>(s: seq<T>, k: nat, start: nat, e: nat)
    requires start <= e <= |s|
    requires start <= FirstStart(AtMost(k), s, e, 0)
    ensures Distinct(s[start..e]) > k ==> start < FirstStart(AtMost(k), s, e, 0)
    ensures Distinct(s[start..e]) <= k ==> start == FirstStart(AtMost(k), s, e, 0)
  {
    if Distinct(s[start..e]) <= k {
      assert AtMost(k)(s[start..e]);
    }
  }

  /** One turn of either version's `for` loop up to its bookkeeping: count
      the character entering on the right, then shrink from the left. */
  method AddAndShrink<T(==)>(s: seq<T>, k: nat, start0: nat, e: nat, counts0: multiset<T>)
    returns (start: nat, counts: multiset<T>)
    requires e < |s|
    requires start0 == FirstStart(AtMost(k), s, e, 0)
    requires counts0 == multiset(s[start0..e])
    ensures start == FirstStart(AtMost(k), s, e + 1, 0)
    ensures counts == multiset(s[start..e + 1])
    ensures Kinds(counts) == Distinct(s[start..e + 1]) <= k
    ensures |counts| == e + 1 - start
  {
    counts := CountRight(s, start0, e, counts0);
    FirstStartGrows(s, k, e);
    start, counts := ShrinkToAtMost(s, k, start0, e + 1, counts);
    WindowCounts(s[start..e + 1], counts);
  }

  /** `char_dict[right_char] += 1`. */
  method CountRight<T(==)>(s: seq<T>, start: nat, e: nat, counts0: multiset<T>) returns (counts: multiset<T>)
    requires start <= e < |s|
    requires counts0 == multiset(s[start..e])
    ensures counts == multiset(s[start..e + 1])
  {
    var rightPointer := s[e];
    AddLast(s, start, e);
    counts := counts0[rightPointer := counts0[rightPointer] + 1];
  }

  /** The dictionary of a window has one key per distinct character and
      adds up to the window's length. */
  lemma WindowCounts<T>(w: seq<T>, counts: multiset<T>)
    requires counts == multiset(w)
    ensures Kinds(counts) == Distinct(w)
    ensures |counts| == |w|
  {
    KindsOfWindow(w);
  }

  /** `sol_longest_substring_with_k_distinct`: the length of the longest
      substring with no more than `k` distinct characters. */
  method SolLongestSubstringWithKDistinct<T(==)>(str: seq<T>, k: nat) returns (maxLength: nat)
    ensures LongestAtMostK(str, k, maxLength)
  {
    var windowStart := 0;
    maxLength := 0;
    var charDict: multiset<T> := multiset{};
    for windowEnd := 0 to |str|
      invariant windowStart == FirstStart(AtMost(k), str, windowEnd, 0)
      invariant charDict == multiset(str[windowStart..windowEnd])
      invariant maxLength == Longest(AtMost(k), str, windowEnd)
    {
      windowStart, charDict := AddAndShrink(str, k, windowStart, windowEnd, charDict);
      LongestStep(AtMost(k), str, windowEnd);
      maxLength := Max(maxLength, |charDict|);
    }
    LongestAtMost(str, k);
  }

  /** `r` is the length of the longest substring with no more than `k`
      distinct characters. */
  ghost predicate LongestAtMostK<T>(s: seq<T>, k: nat, r: nat) {
    && (forall i, j :: 0 <= i <= j <= |s| && Distinct(s[i..j]) <= k ==> j - i <= r)
    && (exists i, j :: 0 <= i <= j <= |s| && Distinct(s[i..j]) <= k && j - i == r)
  }

  /** At most one length is the longest. */
  lemma LongestAtMostKUnique<T>(s: seq<T>, k: nat, r1: nat, r2: nat)
    requires LongestAtMostK(s, k, r1) && LongestAtMostK(s, k, r2)
    ensures r1 == r2
  {
    var i1, j1 :| 0 <= i1 <= j1 <= |s| && Distinct(s[i1..j1]) <= k && j1 - i1 == r1;
    var i2, j2 :| 0 <= i2 <= j2 <= |s| && Distinct(s[i2..j2]) <= k && j2 - i2 == r2;
  }

  /** The longest passing window, read back in terms of distinct characters. */
  lemma LongestAtMost<T>(s: seq<T>, k: nat)
    ensures LongestAtMostK(s, k, Longest(AtMost(k), s, |s|))
  {
    var r := Longest(AtMost(k), s, |s|);
    forall i, j | 0 <= i <= j <= |s| && Distinct(s[i..j]) <= k
      ensures j - i <= r
    {
      assert AtMost(k)(s[i..j]);
    }
    var i, j :| 0 <= i <= j <= |s| && AtMost(k)(s[i..j]) && j - i == r;
  }

  /** `r` is the length of the longest substring with exactly `k` distinct
      characters, or 0 when there is none. */
  ghost predicate LongestExact<T>(s: seq<T>, k: nat, r: nat, m: nat)
    requires m <= |s|
  {
    && (forall i, j :: 0 <= i <= j <= m && Distinct(s[i..j]) == k ==> j - i <= r)
    && (r == 0 || exists i, j :: 0 <= i <= j <= m && Distinct(s[i..j]) == k && j - i == r)
  }

  /** At most one length is the longest with exactly `k` kinds. */
  lemma LongestExactUnique<T>(s: seq<T>, k: nat, r1: nat, r2: nat)
    requires LongestExact(s, k, r1, |s|) && LongestExact(s, k, r2, |s|)
    ensures r1 == r2
  {
    if r1 != 0 {
      var i1, j1 :| 0 <= i1 <= j1 <= |s| && Distinct(s[i1..j1]) == k && j1 - i1 == r1;
    }
    if r2 != 0 {
      var i2, j2 :| 0 <= i2 <= j2 <= |s| && Distinct(s[i2..j2]) == k && j2 - i2 == r2;
    }
  }

  /** One step of the first version: the window at the first passing start
      counts only when it has exactly `k` distinct characters. */
  lemma ExactStep<T>(s: seq<T>, k: nat, prev: nat, start: nat, e: nat, r: nat)
    requires 1 <= e <= |s|
    requires start == FirstStart(AtMost(k), s, e, 0)
    requires LongestExact(s, k, prev, e - 1)
    requires r == if Distinct(s[start..e]) == k then Max(e - start, prev) else prev
    ensures LongestExact(s, k, r, e)
  {
    forall i, j | 0 <= i <= j <= e && Distinct(s[i..j]) == k
      ensures j - i <= r
    {
      if j == e {
        ExactAtEnd(s, k, i, e);
      }
    }
  }

  /** The first version's answer after `m` characters, right end by right
      end: the window at the first passing start counts only when it has
      exactly `k` distinct characters. */
  ghost function LongestExactLen<T>(s: seq<T>, k: nat, m: nat): nat
    requires m <= |s|
    decreases m
  {
    if m == 0 then 0
    else
      var f := FirstStart(AtMost(k), s, m, 0);
      var prev := LongestExactLen(s, k, m - 1);
      if Distinct(s[f..m]) == k then Max(m - f, prev) else prev
  }

  /** The first version's bookkeeping finds the longest substring with
      exactly `k` distinct characters. */
  lemma {:induction false} LongestExactLenMeaning<T>(s: seq<T>, k: nat, m: nat)
    requires m <= |s|
    ensures LongestExact(s, k, LongestExactLen(s, k, m), m)
    decreases m
  {
    if m > 0 {
      LongestExactLenMeaning(s, k, m - 1);
      ExactStep(s, k, LongestExactLen(s, k, m - 1), FirstStart(AtMost(k), s, m, 0), m, LongestExactLen(s, k, m));
    }
  }

  /** `longest_substring_with_k_distinct`: records a window only when it has
      exactly `k` distinct characters, so it finds the longest substring with
      exactly `k` of them, and 0 for a string with fewer than `k`. */
  method LongestSubstringWithKDistinct<T(==)>(strArr: seq<T>, k: nat) returns (maxLength: nat)
    ensures LongestExact(strArr, k, maxLength, |strArr|)
  {
    var charDict: multiset<T> := multiset{};
    var startWindow := 0;
    maxLength := 0;
    for endWindow := 0 to |strArr|
      invariant startWindow == FirstStart(AtMost(k), strArr, endWindow, 0)
      invariant charDict == multiset(strArr[startWindow..endWindow])
      invariant maxLength == LongestExactLen(strArr, k, endWindow)
    {
      startWindow, charDict := AddAndShrink(strArr, k, startWindow, endWindow, charDict);
      if Kinds(charDict) == k {
        maxLength := Max(|charDict|, maxLength);
      }
    }
    LongestExactLenMeaning(strArr, k, |strArr|);
  }

  /** The first version drops every window with fewer than `k` distinct
      characters: on "aa" with `k = 2` no window has exactly two, so it
      answers 0 where the longest qualifying substring, "aa", has length 2. */
  lemma FewerKindsAnswersZero(r: nat)
    requires LongestExact("aa", 2, r, 2)
    ensures r == 0
  {
    var s := "aa";
    forall i, j | 0 <= i <= j <= 2
      ensures Distinct(s[i..j]) <= 1
    {
      CharsWithin(s[i..j], {'a'});
    }
  }

  /** ... while the second version, on the same input, answers 2. */
  lemma FewerKindsSolAnswersTwo(r: nat)
    requires LongestAtMostK("aa", 2, r)
    ensures r == 2
  {
    var s := "aa";
    CharsWithin(s[0..2], {'a'});
  }

  // ---------------------------------------------------------------------------
  // The module's examples, for both versions

  /** In "araaci" every window of five or more characters holds 'r', 'a'
      and 'c'. */
  lemma AraaciWide(i: int, j: int)
    requires 0 <= i <= j <= 6 && j - i >= 5
    ensures Distinct("araaci"[i..j]) > 2
  {
    var s := "araaci";
    assert s[1] == 'r' && s[2] == 'a' && s[4] == 'c';
    InWindow(s, i, j, 1);
    InWindow(s, i, j, 2);
    InWindow(s, i, j, 4);
    CharsSeen(s[i..j], {'r', 'a', 'c'});
  }

  /** In "araaci" every window of three or more characters holds two
      different neighbours. */
  lemma AraaciNarrow(i: int, j: int)
    requires 0 <= i <= j <= 6 && j - i >= 3
    ensures Distinct("araaci"[i..j]) > 1
  {
    var s := "araaci";
    var p := if i <= 1 then 1 else 3;
    assert s[p] != s[p + 1];
    InWindow(s, i, j, p);
    InWindow(s, i, j, p + 1);
    CharsSeen(s[i..j], {s[p], s[p + 1]});
  }

  /** "cbbebi" itself has four distinct characters. */
  lemma CbbebiWhole(i: int, j: int)
    requires 0 <= i <= j <= 6 && j - i >= 6
    ensures Distinct("cbbebi"[i..j]) > 3
  {
    var s := "cbbebi";
    var w := s[i..j];
    assert w == s;
    assert w[0] == 'c' && w[1] == 'b' && w[3] == 'e' && w[5] == 'i';
    CharsSeen(w, {'c', 'b', 'e', 'i'});
  }

  /** The witnesses: "araa" has two kinds, "aa" one, and "cbbeb" three. */
  lemma ExampleWitnesses()
    ensures Distinct("araaci"[0..4]) == 2
    ensures Distinct("araaci"[2..4]) == 1
    ensures Distinct("cbbebi"[0..5]) == 3
  {
    var s := "araaci";
    CharsWithin(s[0..4], {'a', 'r'});
    InWindow(s, 0, 4, 0);
    InWindow(s, 0, 4, 1);
    CharsSeen(s[0..4], {'a', 'r'});
    CharsWithin(s[2..4], {'a'});
    InWindow(s, 2, 4, 2);
    CharsSeen(s[2..4], {'a'});
    var t := "cbbebi";
    CharsWithin(t[0..5], {'c', 'b', 'e'});
    InWindow(t, 0, 5, 0);
    InWindow(t, 0, 5, 1);
    InWindow(t, 0, 5, 3);
    CharsSeen(t[0..5], {'c', 'b', 'e'});
  }

  /** `longest_substring_with_k_distinct("araaci", 2)` is 4: `"araa"`. */
  lemma ExampleAraaciTwo(r: nat)
    requires LongestExact("araaci", 2, r, 6)
    ensures r == 4
  {
    var s := "araaci";
    forall i, j | 0 <= i <= j <= |s| && Distinct(s[i..j]) == 2
      ensures j - i <= 4
    {
      if j - i >= 5 { AraaciWide(i, j); }
    }
    ExampleWitnesses();
    LongestExactUnique(s, 2, r, 4);
  }

  /** `longest_substring_with_k_distinct("araaci", 1)` is 2: `"aa"`. */
  lemma ExampleAraaciOne(r: nat)
    requires LongestExact("araaci", 1, r, 6)
    ensures r == 2
  {
    var s := "araaci";
    forall i, j | 0 <= i <= j <= |s| && Distinct(s[i..j]) == 1
      ensures j - i <= 2
    {
      if j - i >= 3 { AraaciNarrow(i, j); }
    }
    ExampleWitnesses();
    LongestExactUnique(s, 1, r, 2);
  }

  /** `longest_substring_with_k_distinct("cbbebi", 3)` is 5: `"cbbeb"` and `"bbebi"`. */
  lemma ExampleCbbebiThree(r: nat)
    requires LongestExact("cbbebi", 3, r, 6)
    ensures r == 5
  {
    var s := "cbbebi";
    forall i, j | 0 <= i <= j <= |s| && Distinct(s[i..j]) == 3
      ensures j - i <= 5
    {
      if j - i >= 6 { CbbebiWhole(i, j); }
    }
    ExampleWitnesses();
    LongestExactUnique(s, 3, r, 5);
  }

  /** `sol_longest_substring_with_k_distinct("araaci", 2)` is also 4. */
  lemma SolExampleAraaciTwo(r: nat)
    requires LongestAtMostK("araaci", 2, r)
    ensures r == 4
  {
    var s := "araaci";
    forall i, j | 0 <= i <= j <= |s| && Distinct(s[i..j]) <= 2
      ensures j - i <= 4
    {
      if j - i >= 5 { AraaciWide(i, j); }
    }
    ExampleWitnesses();
    LongestAtMostKUnique(s, 2, r, 4);
  }

  /** `sol_longest_substring_with_k_distinct("araaci", 1)` is also 2. */
  lemma SolExampleAraaciOne(r: nat)
    requires LongestAtMostK("araaci", 1, r)
    ensures r == 2
  {
    var s := "araaci";
    forall i, j | 0 <= i <= j <= |s| && Distinct(s[i..j]) <= 1
      ensures j - i <= 2
    {
      if j - i >= 3 { AraaciNarrow(i, j); }
    }
    ExampleWitnesses();
    LongestAtMostKUnique(s, 1, r, 2);
  }

  /** `sol_longest_substring_with_k_distinct("cbbebi", 3)` is also 5. */
  lemma SolExampleCbbebiThree(r: nat)
    requires LongestAtMostK("cbbebi", 3, r)
    ensures r == 5
  {
    var s := "cbbebi";
    forall i, j | 0 <= i <= j <= |s| && Distinct(s[i..j]) <= 3
      ensures j - i <= 5
    {
      if j - i >= 6 { CbbebiWhole(i, j); }
    }
    ExampleWitnesses();
    LongestAtMostKUnique(s, 3, r, 5);
  }
}
