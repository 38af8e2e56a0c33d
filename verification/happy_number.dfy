/** `happy_number`: repeatedly replace a number by the sum of the squares of
    its decimal digits. A number is happy when this reaches 1. `sum_of_squares`
    computes one step; `sol_is_happy_number` walks the sequence keeping the set
    of values seen; `is_happy_number` runs a slow and a fast walker. */
module HappyNumber {
  import opened Wrappers
  import opened Seqs

  /** The decimal digits of `n`, least significant first; none for `n <= 0`. */
  function Digits(n: int): seq<int>
    decreases if n <= 0 then 0 else n
  {
    if n <= 0 then [] else [n % 10] + Digits(n / 10)
  }

  /** The number whose decimal digits, least significant first, are `ds`. */
  function FromDigits(ds: seq<int>): int {
    if ds == [] then 0 else ds[0] + 10 * FromDigits(ds[1..])
  }

  /** The sum of the squares of `ds`. */
  function SquareSum(ds: seq<int>): int {
    if ds == [] then 0 else ds[0] * ds[0] + SquareSum(ds[1..])
  }

  /** One step of the walk: the sum of the squares of the digits. */
  function DigitSquareSum(n: int): int {
    SquareSum(Digits(n))
  }

  /** `Digits` is the decimal representation of a positive number: every
      digit is in `0..9`, the most significant one is not 0, and the digits
      spell `n` again. */
  lemma {:induction false} DigitsRoundTrip(n: int)
    requires n >= 0
    ensures forall i :: 0 <= i < |Digits(n)| ==> 0 <= Digits(n)[i] <= 9
    ensures n > 0 ==> Digits(n)[|Digits(n)| - 1] != 0
    ensures FromDigits(Digits(n)) == n
    decreases n
  {
    if n > 0 {
      DigitsRoundTrip(n / 10);
      assert Digits(n)[1..] == Digits(n / 10);
    }
  }

  /** `sum_of_squares(n)`: take the last digit off `n` and add its square,
      until nothing is left. */
  method SumOfSquares(n: int) returns (result: int)
    ensures result == DigitSquareSum(n)
    ensures n <= 0 ==> result == 0
  {
    result := 0;
    var m := n;
    while m > 0
      invariant result + SquareSum(Digits(m)) == SquareSum(Digits(n))
      decreases m
    {
      var digit := m % 10;
      assert Digits(m)[1..] == Digits(m / 10);
      result := result + digit * digit;
      m := m / 10;
    }
  }

  /** One step adds the square of the last digit to the step from the
      rest. */
  lemma StepUnfold(n: int)
    requires n > 0
    ensures DigitSquareSum(n) == n % 10 * (n % 10) + DigitSquareSum(n / 10)
  {
    assert Digits(n)[1..] == Digits(n / 10);
  }

  lemma DigitSquare(d: int)
    requires 0 <= d <= 9
    ensures 0 <= d * d <= 81
  {
    assert d * d <= 9 * d;
  }

  /** Numbers of at most three digits step to at most 243. */
  lemma SmallStep(n: int)
    requires n <= 999
    ensures 0 <= DigitSquareSum(n) <= 243
    ensures n <= 99 ==> DigitSquareSum(n) <= 162
    ensures n <= 9 ==> DigitSquareSum(n) <= 81
  {
    if n > 0 {
      StepUnfold(n);
      DigitSquare(n % 10);
      var q1 := n / 10;
      if q1 > 0 {
        StepUnfold(q1);
        DigitSquare(q1 % 10);
        var q2 := q1 / 10;
        if q2 > 0 {
          StepUnfold(q2);
          DigitSquare(q2 % 10);
          assert q2 / 10 == 0;
        }
      }
    }
  }

  /** Numbers of four digits or more step to something smaller. */
  lemma {:induction false} LargeStep(n: int)
    requires n >= 1000
    ensures 0 <= DigitSquareSum(n) < n
    decreases n
  {
    var q := n / 10;
    DigitSquare(n % 10);
    StepUnfold(n);
    if q >= 1000 {
      LargeStep(q);
    } else {
      SmallStep(q);
    }
  }

  /** Every walk stays within `[min(n, 0), max(n, 999)]`. */
  lemma StepBound(n: int, lo: int, hi: int)
    requires lo <= 0 && 999 <= hi && lo <= n <= hi
    ensures lo <= DigitSquareSum(n) <= hi
  {
    if n >= 1000 {
      LargeStep(n);
    } else {
      SmallStep(n);
    }
  }

  /** The value after `k` steps from `n`. */
  function Iter(n: int, k: nat): int {
    if k == 0 then n else DigitSquareSum(Iter(n, k - 1))
  }

  /** `n` is happy when its walk reaches 1. */
  ghost predicate Happy(n: int) {
    exists k: nat :: Iter(n, k) == 1
  }

  /** Steps compose. */
  lemma {:induction false} IterAdd(n: int, a: nat, b: nat)
    ensures Iter(n, a + b) == Iter(Iter(n, a), b)
    decreases b
  {
    if b > 0 {
      IterAdd(n, a, b - 1);
    }
  }

  /** Once at 1, the walk stays at 1. */
  lemma {:induction false} OneStays(n: int, a: nat, b: nat)
    requires Iter(n, a) == 1 && a <= b
    ensures Iter(n, b) == 1
    decreases b - a
  {
    if a < b {
      OneStays(n, a, b - 1);
      assert Digits(1) == [1];
    }
  }

  /** A walk that comes back to an earlier value at step `s` repeats forever,
      so if it avoids 1 before step `s` it never reaches 1. */
  lemma {:induction false} NeverOne(n: int, j: nat, s: nat, k: nat)
    requires j < s && Iter(n, j) == Iter(n, s)
    requires forall i: nat :: i < s ==> Iter(n, i) != 1
    ensures Iter(n, k) != 1
    decreases k
  {
    if k >= s {
      var back := k - (s - j);
      IterAdd(n, s, k - s);
      IterAdd(n, j, k - s);
      assert j + (k - s) == back;
      NeverOne(n, j, s, back);
    }
  }

  /** The values `Iter(n, i)` for `i < steps`. */
  ghost function Seen(n: int, steps: nat): set<int> {
    set i: nat | i < steps :: Iter(n, i)
  }

  /** `sol_is_happy_number(n)`: walk from `n`, remembering what was seen,
      while the value is neither 1 nor seen before; answer true as soon as a
      step lands on 1, and false otherwise. For `n != 1` the answer is
      whether `n` is happy; for `n == 1` the loop never runs and the answer
      is false. */
  method SolIsHappyNumber(n: int) returns (r: bool)
    ensures n != 1 ==> (r <==> Happy(n))
    ensures n == 1 ==> !r
  {
    ghost var lo, hi := if n < 0 then n else 0, if n > 999 then n else 999;
    ghost var steps: nat := 0;
    var visit: set<int> := {};
    var m := n;
    while m != 1 && m !in visit
      invariant m == Iter(n, steps) && visit == Seen(n, steps)
      invariant lo <= m <= hi && visit <= Range(lo, hi)
      invariant forall i: nat :: i < steps ==> Iter(n, i) != 1
      invariant steps > 0 ==> m != 1
      decreases Range(lo, hi) - visit
    {
      InRange(lo, hi, m);
      SeenGrows(n, steps);
      visit := visit + {m};
      StepBound(m, lo, hi);
      m := DigitSquareSum(m);
      steps := steps + 1;
      if m == 1 {
        assert Iter(n, steps) == 1;
        return true;
      }
    }
    if m != 1 {
      Repeats(n, steps);
    }
    return false;
  }

  /** Each step of the walk adds the current value to what was seen. */
  lemma SeenGrows(n: int, steps: nat)
    ensures Seen(n, steps + 1) == Seen(n, steps) + {Iter(n, steps)}
  {
  }

  /** A walk that avoided 1 so far and now comes back to a value it has seen
      never reaches 1. */
  lemma Repeats(n: int, steps: nat)
    requires Iter(n, steps) in Seen(n, steps)
    requires forall i: nat :: i < steps ==> Iter(n, i) != 1
    ensures !Happy(n)
  {
    var j: nat :| j < steps && Iter(n, j) == Iter(n, steps);
    forall k: nat
      ensures Iter(n, k) != 1
    {
      NeverOne(n, j, steps, k);
    }
  }

  /** `sol_is_happy_number` with the test for 1 made before the loop: the
      answer is whether `n` is happy, for every `n`. */
  method IsHappy(n: int) returns (r: bool)
    ensures r <==> Happy(n)
  {
    if n == 1 {
      assert Iter(n, 0) == 1;
      return true;
    }
    r := SolIsHappyNumber(n);
  }

  /** 1 is happy, yet `sol_is_happy_number(1)` answers false. */
  lemma OneIsHappy()
    ensures Happy(1)
  {
    assert Iter(1, 0) == 1;
  }

  /** One round of `is_happy_number`: the slow walker takes one step and
      the fast walker two; true when the fast walker lands on 1, false when
      the two meet elsewhere, and another round otherwise. At most `fuel`
      rounds are run. */
  function Floyd(slow: int, fast: int, fuel: nat): Option<bool>
    decreases fuel
  {
    if fuel == 0 then None
    else
      var s := DigitSquareSum(slow);
      var f := DigitSquareSum(DigitSquareSum(fast));
      if f == 1 then Some(true)
      else if s == f then Some(false)
      else Floyd(s, f, fuel - 1)
  }

  /** `is_happy_number(n)`, with at most `fuel` rounds. */
  function IsHappyNumber(n: int, fuel: nat): Option<bool> {
    Floyd(n, n, fuel)
  }

  /** After `k` rounds, with the fast walker at an even step that was never
      1: a value of 1 anywhere before step `2k` would have been seen by the
      fast walker, since 1 is a fixed point. */
  lemma FloydNoOneBefore(n: int, k: nat, m: nat)
    requires forall i: nat :: 1 <= i <= k ==> Iter(n, 2 * i) != 1
    requires m <= 2 * k && 1 <= k
    ensures Iter(n, m) != 1
  {
    var i: nat := if m == 0 then 1 else (m + 1) / 2;
    assert 1 <= i <= k && m <= 2 * i;
    if Iter(n, m) == 1 {
      OneStays(n, m, 2 * i);
    }
  }

  /** Whatever answer `k` rounds in give is whether `n` is happy. */
  lemma {:induction false} FloydSound(n: int, k: nat, fuel: nat)
    requires forall i: nat :: 1 <= i <= k ==> Iter(n, 2 * i) != 1
    requires Floyd(Iter(n, k), Iter(n, 2 * k), fuel).Some?
    ensures Floyd(Iter(n, k), Iter(n, 2 * k), fuel).value <==> Happy(n)
    decreases fuel
  {
    var s, f := Iter(n, k + 1), Iter(n, 2 * k + 2);
    assert Iter(n, 2 * k + 1) == DigitSquareSum(Iter(n, 2 * k));
    if f == 1 {
      assert Happy(n);
    } else if s == f {
      forall m: nat | m < 2 * k + 2
        ensures Iter(n, m) != 1
      {
        FloydNoOneBefore(n, k + 1, m);
      }
      forall m: nat
        ensures Iter(n, m) != 1
      {
        NeverOne(n, k + 1, 2 * k + 2, m);
      }
    } else {
      assert 2 * (k + 1) == 2 * k + 2;
      FloydSound(n, k + 1, fuel - 1);
    }
  }

  /** `is_happy_number` answers, when it answers within its rounds, whether
      `n` is happy. */
  lemma IsHappyNumberSound(n: int, fuel: nat)
    requires IsHappyNumber(n, fuel).Some?
    ensures IsHappyNumber(n, fuel).value <==> Happy(n)
  {
    FloydSound(n, 0, fuel);
  }

  /** `is_happy_number(1)` answers true in its first round. */
  lemma IsHappyNumberOne()
    ensures IsHappyNumber(1, 1) == Some(true)
  {
    assert Digits(1) == [1];
    assert DigitSquareSum(1) == 1;
  }

  /** 19 is happy: 19, 82, 68, 100, 1. */
  lemma ExampleOne()
    ensures Iter(19, 4) == 1
    ensures Happy(19)
  {
    assert DigitSquareSum(19) == 82 by { assert Digits(19) == [9, 1]; }
    assert DigitSquareSum(82) == 68 by { assert Digits(82) == [2, 8]; }
    assert DigitSquareSum(68) == 100 by { assert Digits(68) == [8, 6]; }
    assert DigitSquareSum(100) == 1 by { assert Digits(100) == [0, 0, 1]; }
  }

  /** 2 is not happy: 2, 4, 16, 37, 58, 89, 145, 42, 20, 4, and round
      again. */
  lemma ExampleTwo()
    ensures !Happy(2)
  {
    TwoSteps();
    assert Iter(2, 1) == 4 && Iter(2, 2) == 16 && Iter(2, 3) == 37;
    assert Iter(2, 4) == 58 && Iter(2, 5) == 89 && Iter(2, 6) == 145;
    assert Iter(2, 7) == 42 && Iter(2, 8) == 20 && Iter(2, 9) == 4;
    forall k: nat
      ensures Iter(2, k) != 1
    {
      NeverOne(2, 1, 9, k);
    }
  }

  /** The steps from the values on the walk from 2. */
  lemma TwoSteps()
    ensures DigitSquareSum(2) == 4 && DigitSquareSum(4) == 16 && DigitSquareSum(16) == 37
    ensures DigitSquareSum(37) == 58 && DigitSquareSum(58) == 89 && DigitSquareSum(89) == 145
    ensures DigitSquareSum(145) == 42 && DigitSquareSum(42) == 20 && DigitSquareSum(20) == 4
  {
    assert DigitSquareSum(2) == 4 by { assert Digits(2) == [2]; }
    assert DigitSquareSum(4) == 16 by { assert Digits(4) == [4]; }
    assert DigitSquareSum(16) == 37 by { assert Digits(16) == [6, 1]; }
    assert DigitSquareSum(37) == 58 by { assert Digits(37) == [7, 3]; }
    assert DigitSquareSum(58) == 89 by { assert Digits(58) == [8, 5]; }
    assert DigitSquareSum(89) == 145 by { assert Digits(89) == [9, 8]; }
    assert DigitSquareSum(145) == 42 by { assert Digits(145) == [5, 4, 1]; }
    assert DigitSquareSum(42) == 20 by { assert Digits(42) == [2, 4]; }
    assert DigitSquareSum(20) == 4 by { assert Digits(20) == [0, 2]; }
  }
}
