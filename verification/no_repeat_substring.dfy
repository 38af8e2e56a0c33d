/** The longest substring without a repeated character, found by keeping the
    index of each character's last occurrence and jumping the window's start
    past it. */
module NoRepeatSubstring {
  import opened Seqs
  import opened Windows

  /** No character occurs twice in `w`. */
  predicate NoRepeats<T(==)>(w: seq<T>) {
    forall p, q :: 0 <= p < q < |w| ==> w[p] != w[q]
  }

  /** The window test of the scan. */
  function Unrepeated<T(==)>(): seq<T> -> bool {
    (w: seq<T>) => NoRepeats(w)
  }

  /** The index map after reading `s[..e]`: every character read so far, sent
      to the position where it was read last. */
  ghost function LastIndices<T>(s: seq<T>, e: nat): map<T, nat>
    requires e <= |s|
    decreases e
  {
    if e == 0 then map[] else LastIndices(s, e - 1)[s[e - 1] := e - 1]
  }

  /** The index map holds each character read so far, at its last
      occurrence before `e`, and no other character. */
  lemma {:induction false} LastIndicesMeaning<T>(s: seq<T>, e: nat, c: T)
    requires e <= |s|
    ensures c in LastIndices(s, e) ==> LastIndices(s, e)[c] < e && s[LastIndices(s, e)[c]] == c
    ensures forall p :: 0 <= p < e && s[p] == c ==> c in LastIndices(s, e) && p <= LastIndices(s, e)[c]
    decreases e
  {
    if e > 0 {
      LastIndicesMeaning(s, e - 1, c);
    }
  }

  /** A window holding two equal characters has a repeat. */
  lemma RepeatIn<T>(s: seq<T>, i: int, j: int, p: int, q: int)
    requires 0 <= i <= p < q < j <= |s|
    requires s[p] == s[q]
    ensures !NoRepeats(s[i..j])
  {
    assert s[i..j][p - i] == s[i..j][q - i];
  }

  /** A window inside a repeat-free window is repeat-free. */
  lemma NoRepeatsInside<T>(s: seq<T>, i: int, i': int, j': int, j: int)
    requires 0 <= i <= i' <= j' <= j <= |s|
    requires NoRepeats(s[i..j])
    ensures NoRepeats(s[i'..j'])
  {
    forall p, q | 0 <= p < q < j' - i'
      ensures s[i'..j'][p] != s[i'..j'][q]
    {
      assert s[i'..j'][p] == s[i..j][p + i' - i];
      assert s[i'..j'][q] == s[i..j][q + i' - i];
    }
  }

  /** A repeat-free window stays repeat-free when the next character is new
      to it. */
  lemma ExtendNoRepeats<T>(s: seq<T>, i: nat, e: nat)
    requires i <= e < |s|
    requires NoRepeats(s[i..e])
    requires forall p :: i <= p < e ==> s[p] != s[e]
    ensures NoRepeats(s[i..e + 1])
  {
    var w, v := s[i..e + 1], s[i..e];
    forall p, q | 0 <= p < q < |w|
      ensures w[p] != w[q]
    {
      if q < |v| {
        assert w[p] == v[p] && w[q] == v[q];
      } else {
        assert w[p] == s[p + i] && w[q] == s[e];
      }
    }
  }

  /** Reading `s[e]`, every start before the new one leaves a repeat: an
      old repeat, or `s[e]` together with its last earlier occurrence. */
  lemma FailsBeforeNext<T>(s: seq<T>, e: nat, start: nat, next: nat, i: nat)
    requires e < |s|
    requires start == FirstStart(Unrepeated(), s, e, 0)
    requires s[e] in LastIndices(s, e) ==> next == Max(start, LastIndices(s, e)[s[e]] + 1)
    requires s[e] !in LastIndices(s, e) ==> next == start
    requires i < next && i <= e
    ensures !NoRepeats(s[i..e + 1])
  {
    if i < start {
      assert !Unrepeated()(s[i..e]);
      if NoRepeats(s[i..e + 1]) {
        NoRepeatsInside(s, i, i, e, e + 1);
      }
    } else {
      var idx := LastIndices(s, e);
      LastIndicesMeaning(s, e, s[e]);
      RepeatIn(s, i, e + 1, idx[s[e]], e);
    }
  }

  /** One turn of the scan: reading `s[e]`, the new first repeat-free start
      is the old one, or just past the last earlier occurrence of `s[e]`
      when that is further right; in particular it never moves left. */
  lemma Step<T>(s: seq<T>, e: nat, start: nat, next: nat)
    requires e < |s|
    requires start == FirstStart(Unrepeated(), s, e, 0)
    requires s[e] in LastIndices(s, e) ==> next == Max(start, LastIndices(s, e)[s[e]] + 1)
    requires s[e] !in LastIndices(s, e) ==> next == start
    ensures next == FirstStart(Unrepeated(), s, e + 1, 0)
    ensures start <= next
  {
    var c := s[e];
    LastIndicesMeaning(s, e, c);
    var e1 := e + 1;
    forall i | 0 <= i < next
      ensures !NoRepeats(s[i..e1])
    {
      FailsBeforeNext(s, e, start, next, i);
    }
    assert Unrepeated()(s[start..e]);
    NoRepeatsInside(s, start, next, e, e);
    ExtendNoRepeats(s, next, e);
    FirstStartUnique(Unrepeated(), s, e + 1, next);
  }

  /** `r` is the length of the longest substring of `s` without a repeated
      character. */
  ghost predicate LongestUnrepeated<T>(s: seq<T>, r: nat) {
    && (forall i, j :: 0 <= i <= j <= |s| && NoRepeats(s[i..j]) ==> j - i <= r)
    && (exists i, j :: 0 <= i <= j <= |s| && NoRepeats(s[i..j]) && j - i == r)
  }

  /** At most one length is the longest. */
  lemma LongestUnrepeatedUnique<T>(s: seq<T>, r1: nat, r2: nat)
    requires LongestUnrepeated(s, r1) && LongestUnrepeated(s, r2)
    ensures r1 == r2
  {
    var i1, j1 :| 0 <= i1 <= j1 <= |s| && NoRepeats(s[i1..j1]) && j1 - i1 == r1;
    var i2, j2 :| 0 <= i2 <= j2 <= |s| && NoRepeats(s[i2..j2]) && j2 - i2 == r2;
  }

  /** The scan's reference length, read back in terms of repeats. */
  lemma LongestIsUnrepeated<T>(s: seq<T>)
    ensures LongestUnrepeated(s, Longest(Unrepeated(), s, |s|))
  {
    var r := Longest(Unrepeated(), s, |s|);
    forall i, j | 0 <= i <= j <= |s| && NoRepeats(s[i..j])
      ensures j - i <= r
    {
      assert Unrepeated()(s[i..j]);
    }
    var i, j :| 0 <= i <= j <= |s| && Unrepeated()(s[i..j]) && j - i == r;
  }

  /** The start update for the character `s[e]`: past its last occurrence
      when that lies inside the window. */
  method NextStart<T(==)>(s: seq<T>, e: nat, start: nat, idx: map<T, nat>) returns (next: nat)
    requires e < |s|
    requires idx == LastIndices(s, e)
    requires start == FirstStart(Unrepeated(), s, e, 0)
    ensures next == FirstStart(Unrepeated(), s, e + 1, 0)
    ensures start <= next
  {
    next := start;
    if s[e] in idx {
      next := Max(start, idx[s[e]] + 1);
    }
    Step(s, e, start, next);
  }

  /** One turn of the loop: move the start, record the new occurrence and
      the window's length. */
  method Advance<T(==)>(str: seq<T>, endWindow: nat, start0: nat, idx0: map<T, nat>, max0: nat)
    returns (startWindow: nat, stringRightCharIdx: map<T, nat>, maxLength: nat)
    requires endWindow < |str|
    requires idx0 == LastIndices(str, endWindow)
    requires start0 == FirstStart(Unrepeated(), str, endWindow, 0)
    requires max0 == Longest(Unrepeated(), str, endWindow)
    ensures stringRightCharIdx == LastIndices(str, endWindow + 1)
    ensures startWindow == FirstStart(Unrepeated(), str, endWindow + 1, 0)
    ensures maxLength == Longest(Unrepeated(), str, endWindow + 1)
  {
    var rightChar := str[endWindow];
    startWindow := NextStart(str, endWindow, start0, idx0);
    stringRightCharIdx := idx0[rightChar := endWindow];
    LongestStep(Unrepeated(), str, endWindow);
    maxLength := Max(max0, endWindow - startWindow + 1);
  }

  /** `non_repeat_substring`: slides the right end over the string; a
      character seen before inside the window moves the start just past its
      last occurrence, and the index map then records the new occurrence. */
  method NonRepeatSubstring<T(==)>(str: seq<T>) returns (maxLength: nat)
    ensures LongestUnrepeated(str, maxLength)
  {
    var stringRightCharIdx: map<T, nat> := map[];
    var startWindow := 0;
    maxLength := 0;
    for endWindow := 0 to |str|
      invariant stringRightCharIdx == LastIndices(str, endWindow)
      invariant startWindow == FirstStart(Unrepeated(), str, endWindow, 0)
      invariant maxLength == Longest(Unrepeated(), str, endWindow)
    {
      startWindow, stringRightCharIdx, maxLength := Advance(str, endWindow, startWindow, stringRightCharIdx, maxLength);
    }
    LongestIsUnrepeated(str);
  }

  /** `sol_non_repeat_substring`: the same loop, with a plain dictionary in
      place of the `defaultdict`, which the loop never reads unguarded. */
  method SolNonRepeatSubstring<T(==)>(str: seq<T>) returns (maxLength: nat)
    ensures LongestUnrepeated(str, maxLength)
  {
    maxLength := NonRepeatSubstring(str);
  }

  /** `non_repeat_substring("aabccbb") == 3`, from `"abc"`. */
  lemma ExampleOne(r: nat)
    requires LongestUnrepeated("aabccbb", r)
    ensures r == 3
  {
    var s := "aabccbb";
    forall i, j | 0 <= i <= j <= |s| && NoRepeats(s[i..j])
      ensures j - i <= 3
    {
      if j - i > 3 {
        if i == 0 {
          RepeatIn(s, i, j, 0, 1);
        } else {
          RepeatIn(s, i, j, 3, 4);
        }
      }
    }
    assert s[1..4] == "abc";
    LongestUnrepeatedUnique(s, r, 3);
  }

  /** `non_repeat_substring("abbbb") == 2`, from `"ab"`. */
  lemma ExampleTwo(r: nat)
    requires LongestUnrepeated("abbbb", r)
    ensures r == 2
  {
    var s := "abbbb";
    forall i, j | 0 <= i <= j <= |s| && NoRepeats(s[i..j])
      ensures j - i <= 2
    {
      if j - i > 2 {
        RepeatIn(s, i, j, i + 1, i + 2);
      }
    }
    assert s[0..2] == "ab";
    LongestUnrepeatedUnique(s, r, 2);
  }

  /** `non_repeat_substring("abccde") == 3`, from `"abc"` or `"cde"`. */
  lemma ExampleThree(r: nat)
    requires LongestUnrepeated("abccde", r)
    ensures r == 3
  {
    var s := "abccde";
    forall i, j | 0 <= i <= j <= |s| && NoRepeats(s[i..j])
      ensures j - i <= 3
    {
      if j - i > 3 {
        RepeatIn(s, i, j, 2, 3);
      }
    }
    assert s[0..3] == "abc";
    LongestUnrepeatedUnique(s, r, 3);
  }
}
