/** Triplets of positions, shared by the three-sum problems, which all sort
    their input first: a triplet of positions in one arrangement of the
    numbers has a counterpart holding the same values in any other
    arrangement. */
module Triples {

  /** Positions `i < j < k` of `a`. */
  ghost predicate IsTriple(a: seq<int>, i: int, j: int, k: int) {
    0 <= i < j < k < |a|
  }

  function TripleSum(a: seq<int>, i: int, j: int, k: int): int
    requires IsTriple(a, i, j, k)
  {
    a[i] + a[j] + a[k]
  }

  /** The values at three ordered positions are part of the whole. */
  lemma SubTriple(a: seq<int>, i: int, j: int, k: int)
    requires IsTriple(a, i, j, k)
    ensures multiset{a[i], a[j], a[k]} <= multiset(a)
  {
    assert a == a[..i] + [a[i]] + a[i + 1..j] + [a[j]] + a[j + 1..k] + [a[k]] + a[k + 1..];
  }

  /** A bounded multiset that does not fit in `u` but fits in `u + [w]`
      holds `w`, and what is left without it fits in `u`. */
  lemma Peel(m: multiset<int>, u: seq<int>, w: int)
    requires m <= multiset(u + [w]) && !(m <= multiset(u))
    ensures w in m && m - multiset{w} <= multiset(u)
  {
    assert multiset(u + [w]) == multiset(u) + multiset{w};
  }

  /** A value in the multiset of a sequence sits at some position. */
  lemma PickOne(t: seq<int>, x: int) returns (i: int)
    requires x in multiset(t)
    ensures 0 <= i < |t| && t[i] == x
  {
    i :| 0 <= i < |t| && t[i] == x;
  }

  /** Two values in the multiset of a sequence sit at two ordered positions. */
  lemma {:induction false} PickPair(t: seq<int>, x: int, y: int) returns (i: int, j: int)
    requires multiset{x, y} <= multiset(t)
    ensures 0 <= i < j < |t| && multiset{t[i], t[j]} == multiset{x, y}
    decreases |t|
  {
    var u, w := t[..|t| - 1], t[|t| - 1];
    assert t == u + [w];
    if multiset{x, y} <= multiset(u) {
      i, j := PickPair(u, x, y);
      assert t[i] == u[i] && t[j] == u[j];
    } else {
      Peel(multiset{x, y}, u, w);
      var other := OtherOne(x, y, w);
      i := PickOne(u, other);
      j := |t| - 1;
      assert t[i] == other && t[j] == w;
    }
  }

  /** What is left of two values once one of them is taken out. */
  lemma OtherOne(x: int, y: int, w: int) returns (p: int)
    requires w in multiset{x, y}
    ensures multiset{x, y} - multiset{w} == multiset{p}
    ensures multiset{p, w} == multiset{x, y}
  {
    p := if w == x then y else x;
  }

  /** What is left of three values once one of them is taken out. */
  lemma OtherTwo(x: int, y: int, z: int, w: int) returns (p: int, q: int)
    requires w in multiset{x, y, z}
    ensures multiset{x, y, z} - multiset{w} == multiset{p, q}
    ensures multiset{p, q, w} == multiset{x, y, z}
  {
    if w == x {
      p, q := y, z;
    } else if w == y {
      p, q := x, z;
    } else {
      p, q := x, y;
    }
  }

  /** Three values in the multiset of a sequence sit at three ordered
      positions. */
  lemma {:induction false} PickTriple(t: seq<int>, x: int, y: int, z: int) returns (i: int, j: int, k: int)
    requires multiset{x, y, z} <= multiset(t)
    ensures IsTriple(t, i, j, k) && multiset{t[i], t[j], t[k]} == multiset{x, y, z}
    decreases |t|
  {
    var u, w := t[..|t| - 1], t[|t| - 1];
    assert t == u + [w];
    if multiset{x, y, z} <= multiset(u) {
      i, j, k := PickTriple(u, x, y, z);
      assert t[i] == u[i] && t[j] == u[j] && t[k] == u[k];
    } else {
      Peel(multiset{x, y, z}, u, w);
      var p, q := OtherTwo(x, y, z, w);
      i, j := PickPair(u, p, q);
      k := |t| - 1;
      assert t[i] == u[i] && t[j] == u[j];
    }
  }

  /** Three values with the same multiset have the same sum. */
  lemma SameTripleSum(p: int, q: int, r: int, x: int, y: int, z: int)
    requires multiset{p, q, r} == multiset{x, y, z}
    ensures p + q + r == x + y + z
  {
    assert p in multiset{x, y, z};
    if p == x {
      assert multiset{q, r} == multiset{y, z};
      assert q in multiset{y, z};
    } else if p == y {
      assert multiset{q, r} == multiset{x, z};
      assert q in multiset{x, z};
    } else {
      assert multiset{q, r} == multiset{x, y};
      assert q in multiset{x, y};
    }
  }

  /** A triplet of positions in `s` has a counterpart in any rearrangement `t`
      holding the same values, and so the same sum. */
  lemma TripleTransfer(s: seq<int>, t: seq<int>, i: int, j: int, k: int)
    requires multiset(s) == multiset(t)
    requires IsTriple(s, i, j, k)
    ensures exists i', j', k' :: IsTriple(t, i', j', k') && TripleSum(t, i', j', k') == TripleSum(s, i, j, k)
  {
    SubTriple(s, i, j, k);
    var i', j', k' := PickTriple(t, s[i], s[j], s[k]);
    SameTripleSum(t[i'], t[j'], t[k'], s[i], s[j], s[k]);
  }
}
