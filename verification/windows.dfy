/** Reference definitions for sliding-window scans.

    A window is a slice `s[i..j]` (half-open). Every variable-size scan in the
    sliding-window and two-pointer models keeps, for its current right end `j`,
    the least start whose window passes some test `ok`; the definitions here say
    what that start is, what the longest passing window is, and how many
    passing non-empty windows there are, independently of any scan. */
module Windows {
  import opened Seqs

  /** The least start `r >= i` whose window `s[r..j]` passes `ok`. The empty
      window `s[j..j]` passes, so there always is one. */
  function FirstStart<T>(ok: seq<T> -> bool, s: seq<T>, j: nat, i: nat): (r: nat)
    requires i <= j <= |s|
    requires ok([])
    ensures i <= r <= j
    ensures ok(s[r..j])
    ensures forall i' :: i <= i' < r ==> !ok(s[i'..j])
    decreases j - i
  {
    if i == j then
      assert s[i..j] == [];
      j
    else if ok(s[i..j]) then i
    else FirstStart(ok, s, j, i + 1)
  }

  /** A start that passes while every earlier one fails is the first start. */
  lemma FirstStartUnique<T>(ok: seq<T> -> bool, s: seq<T>, j: nat, x: nat)
    requires x <= j <= |s|
    requires ok([])
    requires ok(s[x..j])
    requires forall i :: 0 <= i < x ==> !ok(s[i..j])
    ensures FirstStart(ok, s, j, 0) == x
  {
  }

  /** The length of the longest passing window ending at or before `m`, taken
      right end by right end over the first passing start of each end. */
  function Longest<T>(ok: seq<T> -> bool, s: seq<T>, m: nat): (r: nat)
    requires m <= |s|
    requires ok([])
    ensures forall i, j :: 0 <= i <= j <= m && ok(s[i..j]) ==> j - i <= r
    ensures exists i, j :: 0 <= i <= j <= m && ok(s[i..j]) && j - i == r
    decreases m
  {
    if m == 0 then
      assert s[0..0] == [];
      0
    else
      var prev := Longest(ok, s, m - 1);
      var f := FirstStart(ok, s, m, 0);
      assert forall i :: 0 <= i <= m && ok(s[i..m]) ==> m - i <= m - f;
      Max(prev, m - f)
  }

  /** `Longest` one right end further on. */
  lemma LongestStep<T>(ok: seq<T> -> bool, s: seq<T>, e: nat)
    requires e < |s|
    requires ok([])
    ensures Longest(ok, s, e + 1) == Max(Longest(ok, s, e), e + 1 - FirstStart(ok, s, e + 1, 0))
  {
  }

  /** Recording the window `s[start..m]` keeps the longest passing length,
      provided the window starts no later than the first passing start and
      is either the first passing window or no longer than a window already
      recorded. */
  lemma RecordWindow<T>(ok: seq<T> -> bool, s: seq<T>, start: nat, m: nat, prev: nat)
    requires 1 <= m <= |s|
    requires ok([])
    requires start <= FirstStart(ok, s, m, 0)
    requires start == FirstStart(ok, s, m, 0) || m - start <= prev
    requires prev == Longest(ok, s, m - 1)
    ensures Max(prev, m - start) == Longest(ok, s, m)
  {
    LongestStep(ok, s, m - 1);
  }

  /** The number of starts `i' in [i, j)` whose non-empty window `s[i'..j]` passes. */
  function CountEnding<T>(ok: seq<T> -> bool, s: seq<T>, j: nat, i: nat): nat
    requires i <= j <= |s|
    decreases j - i
  {
    if i == j then 0
    else (if ok(s[i..j]) then 1 else 0) + CountEnding(ok, s, j, i + 1)
  }

  /** The number of passing non-empty windows `s[i..j]` with `j <= m`. */
  function CountPassing<T>(ok: seq<T> -> bool, s: seq<T>, m: nat): nat
    requires m <= |s|
  {
    if m == 0 then 0 else CountPassing(ok, s, m - 1) + CountEnding(ok, s, m, 0)
  }

  /** When every start from the first passing one onwards passes, the passing
      windows ending at `j` are exactly those starting in `[FirstStart, j)`. */
  lemma {:induction false} CountEndingFromFirst<T>(ok: seq<T> -> bool, s: seq<T>, j: nat, i: nat)
    requires i <= j <= |s|
    requires ok([])
    requires forall k :: FirstStart(ok, s, j, 0) <= k < j ==> ok(s[k..j])
    ensures CountEnding(ok, s, j, i) == j - Max(i, FirstStart(ok, s, j, 0))
    decreases j - i
  {
    if i < j {
      CountEndingFromFirst(ok, s, j, i + 1);
    }
  }
}
