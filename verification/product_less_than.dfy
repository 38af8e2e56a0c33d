/** `subarray_product_less_than_k`: count the contiguous subarrays of an array
    of positive numbers whose product is below the target. For each right end
    the window is shrunk from the left until its product is below the target;
    every start from there to the right end then qualifies. The source divides
    the running product with `/`; since the divisor is always the window's
    first factor, the quotient is exact and is modelled as integer division. */
module ProductLessThan {
  import opened Seqs
  import opened Windows

  /** The test on a window: its product is below `target`. */
  function Below(target: int): seq<int> -> bool {
    (w: seq<int>) => Prod(w) < target
  }

  lemma EmptyBelow(target: int)
    requires target >= 2
    ensures Below(target)([])
  {
  }

  /** The product of a single element is that element. */
  lemma ProdSingle(x: int)
    ensures Prod([x]) == x
  {
    assert [x][..0] == [];
  }

  /** Splitting off the window's first factor. */
  lemma ProdFront(s: seq<int>, i: nat, j: nat)
    requires i < j <= |s|
    ensures Prod(s[i..j]) == s[i] * Prod(s[i + 1..j])
  {
    assert s[i..j] == [s[i]] + s[i + 1..j];
    ProdAppend([s[i]], s[i + 1..j]);
    ProdSingle(s[i]);
  }

  /** Multiplying in the element that enters on the right. */
  lemma ProdBack(s: seq<int>, i: nat, j: nat)
    requires i <= j < |s|
    ensures Prod(s[i..j + 1]) == Prod(s[i..j]) * s[j]
  {
    assert s[i..j + 1][..j - i] == s[i..j];
  }

  /** Over positive elements a window's product is at least that of any
      window inside it. */
  lemma ProdInside(s: seq<int>, i: nat, i': nat, j': nat, j: nat)
    requires AllPositive(s)
    requires i <= i' <= j' <= j <= |s|
    ensures Prod(s[i'..j']) <= Prod(s[i..j])
  {
    assert s[i..j] == s[i..i'] + s[i'..j'] + s[j'..j];
    ProdAppend(s[i..i'] + s[i'..j'], s[j'..j]);
    ProdAppend(s[i..i'], s[i'..j']);
    ProdPositive(s[i..i']);
    ProdPositive(s[i'..j']);
    ProdPositive(s[j'..j]);
    var a, b, c := Prod(s[i..i']), Prod(s[i'..j']), Prod(s[j'..j]);
    assert a * b >= 1 * b;
    assert (a * b) * c >= (a * b) * 1;
  }

  /** Dividing out a positive factor is exact. */
  lemma DivideOut(a: int, p: int)
    requires a > 0
    ensures (a * p) / a == p
  {
    var q, r := (a * p) / a, (a * p) % a;
    assert a * p == a * q + r && 0 <= r < a;
    assert a * (p - q) == r;
    ScaleAwayFromZero(a, p - q);
  }

  lemma ScaleAwayFromZero(a: int, d: int)
    requires a > 0
    ensures d >= 1 ==> a * d >= a
    ensures d <= -1 ==> a * d <= -a
  {
  }

  /** The first start whose product is below the target never moves left as
      the right end advances. */
  lemma FirstStartGrows(s: seq<int>, target: int, e: nat)
    requires AllPositive(s) && target >= 2
    requires e < |s|
    ensures FirstStart(Below(target), s, e, 0) <= FirstStart(Below(target), s, e + 1, 0)
  {
    EmptyBelow(target);
    var f := FirstStart(Below(target), s, e, 0);
    var g := FirstStart(Below(target), s, e + 1, 0);
    if g < f {
      assert !Below(target)(s[g..e]);
      ProdInside(s, g, g, e, e + 1);
      assert false;
    }
  }

  /** Every start from the first passing one onwards passes too. */
  lemma PassFromFirst(s: seq<int>, target: int, j: nat)
    requires AllPositive(s) && target >= 2
    requires j <= |s|
    ensures forall k :: FirstStart(Below(target), s, j, 0) <= k < j ==> Below(target)(s[k..j])
  {
    EmptyBelow(target);
    var f := FirstStart(Below(target), s, j, 0);
    forall k | f <= k < j
      ensures Below(target)(s[k..j])
    {
      ProdInside(s, f, k, j, j);
    }
  }

  /** The number of qualifying subarrays ending at `j` is the distance from
      the first passing start: `right_ptr - left_ptr + 1`. */
  lemma CountAtEnd(s: seq<int>, target: int, j: nat)
    requires AllPositive(s) && target >= 2
    requires 1 <= j <= |s|
    ensures CountEnding(Below(target), s, j, 0) == j - FirstStart(Below(target), s, j, 0)
  {
    EmptyBelow(target);
    PassFromFirst(s, target, j);
    CountEndingFromFirst(Below(target), s, j, 0);
  }

  /** Below a target of 2 no product of positive numbers qualifies. */
  lemma {:induction false} NoneBelow(s: seq<int>, target: int, m: nat)
    requires AllPositive(s) && target < 2
    requires m <= |s|
    ensures CountPassing(Below(target), s, m) == 0
    decreases m
  {
    if m > 0 {
      NoneBelow(s, target, m - 1);
      NoneEnding(s, target, m, 0);
    }
  }

  lemma {:induction false} NoneEnding(s: seq<int>, target: int, j: nat, i: nat)
    requires AllPositive(s) && target < 2
    requires i <= j <= |s|
    ensures CountEnding(Below(target), s, j, i) == 0
    decreases j - i
  {
    if i < j {
      NoneEnding(s, target, j, i + 1);
      ProdInside(s, i, i, i, j);
      assert Prod(s[i..i]) == 1 by { assert s[i..i] == []; }
    }
  }

  /** `subarray_product_less_than_k(arr, target)`: the number of contiguous
      subarrays whose product is below `target`; 0 when `target < 2`. */
  method SubarrayProductLessThanK(arr: seq<int>, target: int) returns (counter: int)
    requires AllPositive(arr)
    ensures counter == CountPassing(Below(target), arr, |arr|)
    ensures target < 2 ==> counter == 0
  {
    if target < 2 {
      NoneBelow(arr, target, |arr|);
      return 0;
    }
    EmptyBelow(target);
    var leftPtr := 0;
    counter := 0;
    var product := 1;
    for rightPtr := 0 to |arr|
      invariant leftPtr == FirstStart(Below(target), arr, rightPtr, 0)
      invariant product == Prod(arr[leftPtr..rightPtr])
      invariant counter == CountPassing(Below(target), arr, rightPtr)
    {
      leftPtr, product := ProductTurn(arr, target, rightPtr, leftPtr, product);
      CountAtEnd(arr, target, rightPtr + 1);
      counter := counter + rightPtr - leftPtr + 1;
    }
  }

  /** One turn: multiply in `arr[e]`, then shrink to the first passing start. */
  method ProductTurn(arr: seq<int>, target: int, e: nat, left0: nat, product0: int)
    returns (left: nat, product: int)
    requires AllPositive(arr) && target >= 2
    requires e < |arr|
    requires left0 == FirstStart(Below(target), arr, e, 0)
    requires product0 == Prod(arr[left0..e])
    ensures left == FirstStart(Below(target), arr, e + 1, 0)
    ensures product == Prod(arr[left..e + 1])
    ensures product < target
  {
    EmptyBelow(target);
    FirstStartGrows(arr, target, e);
    ProdBack(arr, left0, e);
    left, product := ShrinkProduct(arr, target, left0, e + 1, product0 * arr[e]);
    StopsAtFirst(arr, target, left, e + 1, product);
  }

  /** `while product >= target: product /= arr[left_ptr]; left_ptr += 1`. */
  method ShrinkProduct(arr: seq<int>, target: int, left0: nat, e: nat, product0: int)
    returns (left: nat, product: int)
    requires AllPositive(arr) && target >= 2
    requires left0 <= e <= |arr|
    requires left0 <= FirstStart(Below(target), arr, e, 0)
    requires product0 == Prod(arr[left0..e])
    ensures left0 <= left <= FirstStart(Below(target), arr, e, 0)
    ensures product == Prod(arr[left..e])
    ensures product < target
  {
    EmptyBelow(target);
    ghost var first := FirstStart(Below(target), arr, e, 0);
    left, product := left0, product0;
    while product >= target
      invariant left0 <= left <= first
      invariant product == Prod(arr[left..e])
      decreases e - left
    {
      assert !Below(target)(arr[left..e]);
      ProdFront(arr, left, e);
      DivideOut(arr[left], Prod(arr[left + 1..e]));
      product := product / arr[left];
      left := left + 1;
    }
  }

  /** A start no later than the first passing one, whose window passes, is it. */
  lemma StopsAtFirst(arr: seq<int>, target: int, left: nat, e: nat, product: int)
    requires target >= 2
    requires left <= e <= |arr|
    requires left <= FirstStart(Below(target), arr, e, 0)
    requires product == Prod(arr[left..e]) && product < target
    ensures left == FirstStart(Below(target), arr, e, 0)
  {
    EmptyBelow(target);
    assert Below(target)(arr[left..e]);
  }

  /** The count at one right end, given the first start whose product is
      below the target. */
  lemma EndsAt(s: seq<int>, target: int, j: nat, x: nat)
    requires AllPositive(s) && target >= 2
    requires x < j <= |s|
    requires Prod(s[x..j]) < target
    requires forall i :: 0 <= i < x ==> Prod(s[i..j]) >= target
    ensures CountEnding(Below(target), s, j, 0) == j - x
  {
    EmptyBelow(target);
    FirstStartUnique(Below(target), s, j, x);
    CountAtEnd(s, target, j);
  }

  /** `subarray_product_less_than_k([2, 5, 3, 10], 30)` is 6: the windows
      `[2]`, `[2, 5]`, `[5]`, `[5, 3]`, `[3]` and `[10]`. */
  lemma ExampleOne()
    ensures CountPassing(Below(30), [2, 5, 3, 10], 4) == 6
  {
    var s := [2, 5, 3, 10];
    EndsAt(s, 30, 1, 0);
    EndsAt(s, 30, 2, 0);
    ExampleOneThird();
    ExampleOneFourth();
  }

  lemma ExampleOneThird()
    ensures CountEnding(Below(30), [2, 5, 3, 10], 3, 0) == 2
  {
    var s := [2, 5, 3, 10];
    assert s[0..3] == [2, 5, 3] && s[1..3] == [5, 3];
    Prod3(2, 5, 3);
    Prod2(5, 3);
    EndsAt(s, 30, 3, 1);
  }

  lemma ExampleOneFourth()
    ensures CountEnding(Below(30), [2, 5, 3, 10], 4, 0) == 1
  {
    var s := [2, 5, 3, 10];
    assert s[0..4] == [2, 5, 3, 10] && s[1..4] == [5, 3, 10] && s[2..4] == [3, 10];
    Prod4(2, 5, 3, 10);
    Prod3(5, 3, 10);
    Prod2(3, 10);
    assert s[3..4] == [10];
    ProdSingle(10);
    EndsAt(s, 30, 4, 3);
  }

  /** `subarray_product_less_than_k([8, 2, 6, 5], 50)` is 7. */
  lemma ExampleTwo()
    ensures CountPassing(Below(50), [8, 2, 6, 5], 4) == 7
  {
    var s := [8, 2, 6, 5];
    EndsAt(s, 50, 1, 0);
    EndsAt(s, 50, 2, 0);
    ExampleTwoThird();
    ExampleTwoFourth();
  }

  lemma ExampleTwoThird()
    ensures CountEnding(Below(50), [8, 2, 6, 5], 3, 0) == 2
  {
    var s := [8, 2, 6, 5];
    assert s[0..3] == [8, 2, 6] && s[1..3] == [2, 6];
    Prod3(8, 2, 6);
    Prod2(2, 6);
    EndsAt(s, 50, 3, 1);
  }

  lemma ExampleTwoFourth()
    ensures CountEnding(Below(50), [8, 2, 6, 5], 4, 0) == 2
  {
    var s := [8, 2, 6, 5];
    assert s[0..4] == [8, 2, 6, 5] && s[1..4] == [2, 6, 5] && s[2..4] == [6, 5];
    Prod4(8, 2, 6, 5);
    Prod3(2, 6, 5);
    Prod2(6, 5);
    EndsAt(s, 50, 4, 2);
  }

  lemma Prod2(a: int, b: int)
    ensures Prod([a, b]) == a * b
  {
    assert [a, b][..1] == [a];
    ProdSingle(a);
  }

  lemma Prod3(a: int, b: int, c: int)
    ensures Prod([a, b, c]) == a * b * c
  {
    assert [a, b, c][..2] == [a, b];
    Prod2(a, b);
  }

  lemma Prod4(a: int, b: int, c: int, d: int)
    ensures Prod([a, b, c, d]) == a * b * c * d
  {
    assert [a, b, c, d][..3] == [a, b, c];
    Prod3(a, b, c);
  }
}
