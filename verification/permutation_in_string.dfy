/** Whether a string contains a permutation of a pattern. Neither version
    looks for a window: the first compares character counts over the whole
    string, and the second reports whether the string's characters so far
    cover the pattern's. Both dictionaries are `defaultdict(int)`s whose keys
    are the characters counted in, so they are maps to integer counts that
    may drop below zero. */
module PermutationInString {
  import opened Seqs

  /** The window `str[i..i + |pattern|]` is a permutation of `pattern`. */
  ghost predicate PermutationAt<T>(str: seq<T>, pattern: seq<T>, i: nat)
    requires i + |pattern| <= |str|
  {
    multiset(str[i..i + |pattern|]) == multiset(pattern)
  }

  /** Some substring of `str` is a permutation of `pattern`: the problem's
      question. */
  ghost predicate ContainsPermutation<T>(str: seq<T>, pattern: seq<T>) {
    exists i :: 0 <= i <= |str| - |pattern| && PermutationAt(str, pattern, i)
  }

  /** `str` holds every character of `pattern` at least as often. */
  ghost predicate Covers<T>(str: seq<T>, pattern: seq<T>) {
    multiset(pattern) <= multiset(str)
  }

  /** Every character of `str` occurs in `pattern` no more often than in
      `str`; characters of `pattern` missing from `str` are not looked at. */
  ghost predicate CoversWhereSeen<T>(str: seq<T>, pattern: seq<T>) {
    forall c :: c in str ==> multiset(pattern)[c] <= multiset(str)[c]
  }

  /** A substring's characters are among the string's. */
  lemma SliceCovered<T>(s: seq<T>, i: nat, j: nat)
    requires i <= j <= |s|
    ensures multiset(s[i..j]) <= multiset(s)
  {
    assert s == s[..i] + s[i..j] + s[j..];
  }

  /** A string that contains a permutation covers the pattern. */
  lemma ContainsCovers<T>(str: seq<T>, pattern: seq<T>)
    requires ContainsPermutation(str, pattern)
    ensures Covers(str, pattern)
  {
    var i :| 0 <= i <= |str| - |pattern| && PermutationAt(str, pattern, i);
    SliceCovered(str, i, i + |pattern|);
  }

  /** Covering the pattern implies covering it where the string is looked at. */
  lemma CoversSeen<T>(str: seq<T>, pattern: seq<T>)
    requires Covers(str, pattern)
    ensures CoversWhereSeen(str, pattern)
  {
  }

  /** `for item in s: d[item] += 1`: the keys are the elements of `s` and
      each value is its count. */
  method Tally<T(==)>(s: seq<T>) returns (d: map<T, int>)
    ensures forall c :: c in d <==> c in s
    ensures forall c :: c in d ==> d[c] == multiset(s)[c]
  {
    d := map[];
    for i := 0 to |s|
      invariant forall c :: c in d <==> c in s[..i]
      invariant forall c :: c in d ==> d[c] == multiset(s[..i])[c]
    {
      var item := s[i];
      assert s[..i + 1] == s[..i] + [item];
      d := d[item := (if item in d then d[item] else 0) + 1];
    }
    assert s[..|s|] == s;
  }

  /** `for ch in pattern: if ch in d: d[ch] -= 1`: the keys stay, and each
      value drops by the key's count in `pattern`. */
  method Untally<T(==)>(d0: map<T, int>, pattern: seq<T>) returns (d: map<T, int>)
    ensures d.Keys == d0.Keys
    ensures forall c :: c in d ==> d[c] == d0[c] - multiset(pattern)[c]
  {
    d := d0;
    for j := 0 to |pattern|
      invariant d.Keys == d0.Keys
      invariant forall c :: c in d ==> d[c] == d0[c] - multiset(pattern[..j])[c]
    {
      var ch := pattern[j];
      assert pattern[..j + 1] == pattern[..j] + [ch];
      if ch in d {
        d := d[ch := d[ch] - 1];
      }
    }
    assert pattern[..|pattern|] == pattern;
  }

  /** `min(d.values())`, which needs at least one key. */
  method MinValue<T(==)>(d: map<T, int>) returns (r: int)
    requires |d| > 0
    ensures forall c :: c in d ==> r <= d[c]
    ensures exists c :: c in d && d[c] == r
  {
    var keys := d.Keys;
    assert keys != {};
    var first :| first in keys;
    r := d[first];
    keys := keys - {first};
    while keys != {}
      invariant keys <= d.Keys
      invariant forall c :: c in d && c !in keys ==> r <= d[c]
      invariant exists c :: c in d && d[c] == r
      decreases |keys|
    {
      var x :| x in keys;
      r := Min(r, d[x]);
      keys := keys - {x};
    }
  }

  /** `find_permutation`: counts the string, takes one off per pattern
      character the string has, and answers whether no count went below
      zero. `min` of an empty dictionary fails, so the string must not be
      empty. The `elif` is the complement of the `if`, so the function never
      falls through. */
  method FindPermutation<T(==)>(str: seq<T>, pattern: seq<T>) returns (r: bool)
    requires |str| >= 1
    ensures r <==> CoversWhereSeen(str, pattern)
  {
    var stringSet := Tally(str);
    stringSet := Untally(stringSet, pattern);
    assert str[0] in stringSet;
    var least := MinValue(stringSet);
    if least >= 0 {
      r := true;
    } else {
      ghost var c :| c in stringSet && stringSet[c] == least;
      r := false;
    }
  }

  /** The pattern characters `m` counts as matched: those whose remaining
      count has reached zero. */
  ghost function Matched<T>(m: map<T, int>): set<T> {
    set c | c in m && m[c] <= 0
  }

  /** Taking one off a key's count matches it exactly when the count reaches
      zero; a count already at or below zero stays matched. */
  lemma MatchedAfterTake<T>(m: map<T, int>, c: T)
    requires c in m
    ensures |Matched(m[c := m[c] - 1])| == |Matched(m)| + (if m[c] - 1 == 0 then 1 else 0)
  {
    var m' := m[c := m[c] - 1];
    if m[c] - 1 == 0 {
      assert Matched(m') == Matched(m) + {c};
    } else if m[c] - 1 < 0 {
      assert Matched(m') == Matched(m);
    } else {
      assert Matched(m') == Matched(m);
    }
  }

  /** Every key is matched exactly when the matched keys are as many as
      the keys. */
  lemma AllMatched<T>(m: map<T, int>)
    ensures |Matched(m)| == |m| <==> forall c :: c in m ==> m[c] <= 0
  {
    assert Matched(m) <= m.Keys;
    if |Matched(m)| == |m| {
      SubsetSameCard(Matched(m), m.Keys);
    }
    if forall c :: c in m ==> m[c] <= 0 {
      assert Matched(m) == m.Keys;
    }
  }

  /** The counter of the pattern against the prefix `str[..q]`: one key per
      pattern character, holding what the prefix still lacks of it. */
  ghost predicate Lacking<T>(counter: map<T, int>, pattern: seq<T>, prefix: seq<T>) {
    && (forall c :: c in counter ==> c in pattern)
    && (forall p :: 0 <= p < |pattern| ==> pattern[p] in counter)
    && (forall c :: c in counter ==> counter[c] == multiset(pattern)[c] as int - multiset(prefix)[c] as int)
  }

  /** The prefix covers the pattern exactly when nothing is lacking. */
  lemma LackingCovers<T>(counter: map<T, int>, pattern: seq<T>, prefix: seq<T>)
    requires Lacking(counter, pattern, prefix)
    ensures Covers(prefix, pattern) <==> forall c :: c in counter ==> counter[c] <= 0
  {
    if forall c :: c in counter ==> counter[c] <= 0 {
      forall c
        ensures multiset(pattern)[c] <= multiset(prefix)[c]
      {
        if c !in pattern {
          assert multiset(pattern)[c] == 0;
        }
      }
    }
  }

  /** Covering the pattern with a prefix covers it with the whole string. */
  lemma PrefixCovers<T>(str: seq<T>, pattern: seq<T>, q: nat)
    requires q <= |str|
    requires Covers(str[..q], pattern)
    ensures Covers(str, pattern)
  {
    SliceCovered(str, 0, q);
    assert str[0..q] == str[..q];
  }

  /** One character entering on the right: take it off its count, and
      count the pattern character as matched when its count reaches zero. */
  method TakeRight<T(==)>(str: seq<T>, pattern: seq<T>, q: nat, counter0: map<T, int>, matched0: nat)
    returns (counter: map<T, int>, matched: nat)
    requires q < |str|
    requires Lacking(counter0, pattern, str[..q])
    requires matched0 == |Matched(counter0)|
    ensures Lacking(counter, pattern, str[..q + 1])
    ensures matched == |Matched(counter)|
  {
    var rightCh := str[q];
    assert str[..q + 1] == str[..q] + [rightCh];
    counter, matched := counter0, matched0;
    if rightCh in counter {
      MatchedAfterTake(counter, rightCh);
      counter := counter[rightCh := counter[rightCh] - 1];
      if counter[rightCh] == 0 {
        matched := matched + 1;
      }
    }
  }

  /** `sol_find_permutation`: answers true as soon as every pattern
      character has been matched, that is, once the characters read so far
      cover the pattern. Its left-shrink branch runs only on the last
      index, after which the loop ends, so it changes nothing. An empty
      string answers false, even for an empty pattern. */
  method SolFindPermutation<T(==)>(str: seq<T>, pattern: seq<T>) returns (r: bool)
    ensures r <==> |str| >= 1 && Covers(str, pattern)
  {
    var leftPtr := 0;
    var matchedCounter: nat := 0;
    var charCounter := Tally(pattern);
    assert forall c :: c in charCounter ==> charCounter[c] == multiset(pattern)[c] - multiset(str[..0])[c];
    assert Matched(charCounter) == {};
    for rightPtr := 0 to |str|
      invariant rightPtr < |str| ==> leftPtr == 0
      invariant rightPtr < |str| ==> Lacking(charCounter, pattern, str[..rightPtr])
      invariant rightPtr < |str| ==> matchedCounter == |Matched(charCounter)|
      invariant rightPtr == |str| && |str| >= 1 ==> !Covers(str, pattern)
    {
      charCounter, matchedCounter := TakeRight(str, pattern, rightPtr, charCounter, matchedCounter);
      if matchedCounter == |charCounter| {
        AllMatched(charCounter);
        LackingCovers(charCounter, pattern, str[..rightPtr + 1]);
        PrefixCovers(str, pattern, rightPtr + 1);
        return true;
      }
      AllMatched(charCounter);
      LackingCovers(charCounter, pattern, str[..rightPtr + 1]);
      if rightPtr >= |str| - 1 {
        assert str[..rightPtr + 1] == str;
        var leftCh := str[leftPtr];
        leftPtr := leftPtr + 1;
        if leftCh in charCounter {
          if charCounter[leftCh] == 0 {
            assert leftCh in Matched(charCounter);
            matchedCounter := matchedCounter - 1;
          }
          charCounter := charCounter[leftCh := charCounter[leftCh] - 1];
        }
      }
    }
    r := false;
  }

  /** The evident intent: slide a window of the pattern's length and
      compare its counts with the pattern's. */
  method HasPermutationWindow<T(==)>(str: seq<T>, pattern: seq<T>) returns (r: bool)
    ensures r <==> ContainsPermutation(str, pattern)
  {
    if |pattern| > |str| {
      return false;
    }
    for i := 0 to |str| - |pattern| + 1
      invariant forall i' :: 0 <= i' < i ==> !PermutationAt(str, pattern, i')
    {
      if multiset(str[i..i + |pattern|]) == multiset(pattern) {
        assert PermutationAt(str, pattern, i);
        return true;
      }
    }
    return false;
  }

  /** `find_permutation("oidbcaf", "abc")` answers true. */
  lemma ExampleOne()
    ensures CoversWhereSeen("oidbcaf", "abc")
  {
    assert Covers("oidbcaf", "abc");
    CoversSeen("oidbcaf", "abc");
  }

  /** `find_permutation("odicf", "dc")` answers true, as the test expects. */
  lemma ExampleTwo()
    ensures CoversWhereSeen("odicf", "dc")
  {
    var str, pattern := "odicf", "dc";
    assert str == ['o'] + pattern[..1] + ['i'] + pattern[1..] + ['f'];
    assert pattern == pattern[..1] + pattern[1..];
    CoversSeen(str, pattern);
  }

  /** No substring of `"odicf"` is a permutation of `"dc"`. */
  lemma OdicfNoWindow()
    ensures !ContainsPermutation("odicf", "dc")
  {
    var str, pattern := "odicf", "dc";
    assert multiset(pattern)['c'] == 1 && multiset(pattern)['d'] == 1;
    forall i | 0 <= i <= 3
      ensures !PermutationAt(str, pattern, i)
    {
      var w := str[i..i + 2];
      if i <= 1 {
        assert w == [str[i], str[i + 1]] && 'c' !in w;
      } else {
        assert w == [str[i], str[i + 1]] && 'd' !in w;
      }
    }
  }

  /** `find_permutation("bcdxabcdy", "bcdyabcdx")` answers true: the two
      strings are permutations of each other. */
  lemma ExampleThree()
    ensures CoversWhereSeen("bcdxabcdy", "bcdyabcdx")
  {
    var str, pattern := "bcdxabcdy", "bcdyabcdx";
    var a, b := "bcd", "abcd";
    assert str == a + ['x'] + b + ['y'];
    assert pattern == a + ['y'] + b + ['x'];
    SwapCovers(a, b, 'x', 'y');
    CoversSeen(str, pattern);
  }

  /** Exchanging two elements leaves the counts as they are. */
  lemma SwapCovers<T>(a: seq<T>, b: seq<T>, x: T, y: T)
    ensures Covers(a + [x] + b + [y], a + [y] + b + [x])
  {
    assert multiset(a + [x] + b + [y]) == multiset(a) + multiset{x} + multiset(b) + multiset{y};
    assert multiset(a + [y] + b + [x]) == multiset(a) + multiset{y} + multiset(b) + multiset{x};
  }

  /** A pattern character the string lacks is ignored by the first version
      and not by the second: on `("ab", "abc")` the first answers true and
      the second false. */
  lemma MissingCharIgnored()
    ensures CoversWhereSeen("ab", "abc")
    ensures !Covers("ab", "abc")
  {
    assert multiset("abc")['c'] == 1;
    assert multiset("ab")['c'] == 0;
  }

  /** `sol_find_permutation("aaacb", "abc")` answers true. */
  lemma SolExampleOne()
    ensures Covers("aaacb", "abc")
  {
    var str, pattern := "aaacb", "abc";
    assert str == "aa" + [pattern[0]] + [pattern[2]] + [pattern[1]];
  }

  /** `sol_find_permutation("eidboaoo", "ab")` answers true as well,
      although no substring of `"eidboaoo"` is a permutation of `"ab"`. */
  lemma EidboaooCovered()
    ensures Covers("eidboaoo", "ab")
  {
    var str, pattern := "eidboaoo", "ab";
    assert str == "eid" + [pattern[1]] + "o" + [pattern[0]] + "oo";
  }

  /** No substring of `"eidboaoo"` is a permutation of `"ab"`. */
  lemma EidboaooNoWindow()
    ensures !ContainsPermutation("eidboaoo", "ab")
  {
    var str, pattern := "eidboaoo", "ab";
    assert multiset(pattern)['a'] == 1 && multiset(pattern)['b'] == 1;
    forall i | 0 <= i <= 6
      ensures !PermutationAt(str, pattern, i)
    {
      var w := str[i..i + 2];
      if i <= 3 {
        assert w == [str[i], str[i + 1]] && 'a' !in w;
      } else {
        assert w == [str[i], str[i + 1]] && 'b' !in w;
      }
    }
  }
}
