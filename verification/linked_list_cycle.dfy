/** `detect_cycle`: walk a linked list from its head, remembering the nodes
    seen, and return the first node met a second time, or `None` when the
    walk runs off the end. Nodes are positions `0 .. |next| - 1`; `next[p]`
    is the position after `p`, and -1 stands for `None`. */
module LinkedListCycle {
  import opened Seqs

  /** Every link, and the head, is a node or `None`. */
  ghost predicate ValidList(next: seq<int>, head: int) {
    && -1 <= head < |next|
    && forall p :: 0 <= p < |next| ==> -1 <= next[p] < |next|
  }

  /** The node reached after `k` steps from the head; `None` stays `None`. */
  function Walk(next: seq<int>, head: int, k: nat): (p: int)
    requires ValidList(next, head)
    ensures -1 <= p < |next|
  {
    if k == 0 then head
    else
      var q := Walk(next, head, k - 1);
      if q == -1 then -1 else next[q]
  }

  /** The nodes of the first `k` steps. */
  ghost function Visited(next: seq<int>, head: int, k: nat): set<int>
    requires ValidList(next, head)
  {
    set i: nat | i < k :: Walk(next, head, i)
  }

  /** The first `s` steps meet `s` different nodes, and step `s` meets one
      of them again. */
  ghost predicate FirstRepeat(next: seq<int>, head: int, s: nat)
    requires ValidList(next, head)
  {
    && (forall i: nat, j: nat :: i < j < s ==> Walk(next, head, i) != Walk(next, head, j))
    && Walk(next, head, s) in Visited(next, head, s)
  }

  /** The walk reaches `None`. */
  ghost predicate Ends(next: seq<int>, head: int)
    requires ValidList(next, head)
  {
    exists k: nat :: Walk(next, head, k) == -1
  }

  /** `detect_cycle(head)`: -1 exactly when the walk reaches `None`;
      otherwise the node at the first step that comes back to a node
      already met. */
  method DetectCycle(next: seq<int>, head: int) returns (r: int, ghost s: nat)
    requires ValidList(next, head)
    ensures r == -1 <==> Ends(next, head)
    ensures r != -1 ==> FirstRepeat(next, head, s) && r == Walk(next, head, s)
  {
    var cur := head;
    var lookup: set<int> := {};
    s := 0;
    while cur != -1
      invariant cur == Walk(next, head, s) && lookup == Visited(next, head, s)
      invariant lookup <= Range(0, |next| - 1)
      invariant forall i: nat, j: nat :: i < j < s ==> Walk(next, head, i) != Walk(next, head, j)
      invariant forall i: nat :: i < s ==> Walk(next, head, i) != -1
      decreases Range(0, |next| - 1) - lookup
    {
      if cur in lookup {
        Cycles(next, head, s);
        return cur, s;
      }
      InRange(0, |next| - 1, cur);
      Distinct(next, head, s);
      lookup := lookup + {cur};
      cur := next[cur];
      s := s + 1;
    }
    assert Ends(next, head);
    return -1, s;
  }

  /** Meeting a node not met before keeps the nodes met all different. */
  lemma Distinct(next: seq<int>, head: int, s: nat)
    requires ValidList(next, head)
    requires Walk(next, head, s) !in Visited(next, head, s)
    requires forall i: nat, j: nat :: i < j < s ==> Walk(next, head, i) != Walk(next, head, j)
    ensures forall i: nat, j: nat :: i < j < s + 1 ==> Walk(next, head, i) != Walk(next, head, j)
    ensures Visited(next, head, s + 1) == Visited(next, head, s) + {Walk(next, head, s)}
  {
    forall i: nat, j: nat | i < j < s + 1
      ensures Walk(next, head, i) != Walk(next, head, j)
    {
      if j == s {
        assert Walk(next, head, i) in Visited(next, head, s);
      }
    }
  }

  /** Steps compose. */
  lemma {:induction false} WalkAdd(next: seq<int>, head: int, a: nat, b: nat)
    requires ValidList(next, head)
    ensures Walk(next, head, a + b) == Walk(next, Walk(next, head, a), b)
    decreases b
  {
    if b > 0 {
      WalkAdd(next, head, a, b - 1);
    }
  }

  /** A walk that comes back at step `s` to the node of step `j` repeats
      forever and never reaches `None`. */
  lemma {:induction false} NeverEnds(next: seq<int>, head: int, j: nat, s: nat, k: nat)
    requires ValidList(next, head)
    requires j < s && Walk(next, head, j) == Walk(next, head, s)
    requires forall i: nat :: i < s ==> Walk(next, head, i) != -1
    ensures Walk(next, head, k) != -1
    decreases k
  {
    if k >= s {
      WalkAdd(next, head, s, k - s);
      WalkAdd(next, head, j, k - s);
      NeverEnds(next, head, j, s, j + (k - s));
    }
  }

  /** Coming back to a node already met means the walk has a cycle. */
  lemma Cycles(next: seq<int>, head: int, s: nat)
    requires ValidList(next, head)
    requires Walk(next, head, s) in Visited(next, head, s)
    requires forall i: nat :: i < s ==> Walk(next, head, i) != -1
    ensures !Ends(next, head)
  {
    var j: nat :| j < s && Walk(next, head, j) == Walk(next, head, s);
    forall k: nat
      ensures Walk(next, head, k) != -1
    {
      NeverEnds(next, head, j, s, k);
    }
  }

  /** Only one step is the first to come back: the answer does not depend
      on how it is found. */
  lemma FirstRepeatUnique(next: seq<int>, head: int, s: nat, t: nat)
    requires ValidList(next, head)
    requires FirstRepeat(next, head, s) && FirstRepeat(next, head, t)
    ensures s == t
  {
  }

  /** The node met a second time lies on a cycle: a positive number of
      steps from it leads back to it. */
  lemma OnCycle(next: seq<int>, head: int, s: nat) returns (p: nat)
    requires ValidList(next, head)
    requires FirstRepeat(next, head, s)
    ensures p > 0 && Walk(next, Walk(next, head, s), p) == Walk(next, head, s)
  {
    var j: nat :| j < s && Walk(next, head, j) == Walk(next, head, s);
    p := s - j;
    WalkAdd(next, head, j, p);
    WalkAdd(next, head, s, p);
  }

  /** Six nodes holding 1 to 6, ending in `None`: no cycle. */
  lemma ExampleOne(r: int)
    requires r == -1 <==> Ends([1, 2, 3, 4, 5, -1], 0)
    ensures r == -1
  {
    assert Walk([1, 2, 3, 4, 5, -1], 0, 6) == -1;
  }

  /** The same nodes with the last linked back to the third: the walk meets
      that node, holding 3, a second time first. */
  lemma ExampleTwo(r: int, s: nat)
    requires r != -1 ==> FirstRepeat([1, 2, 3, 4, 5, 2], 0, s) && r == Walk([1, 2, 3, 4, 5, 2], 0, s)
    requires r == -1 <==> Ends([1, 2, 3, 4, 5, 2], 0)
    ensures r == 2 && [1, 2, 3, 4, 5, 6][r] == 3
  {
    var next := [1, 2, 3, 4, 5, 2];
    assert Walk(next, 0, 6) == 2 && Walk(next, 0, 2) == 2;
    assert Walk(next, 0, 6) in Visited(next, 0, 6);
    Cycles(next, 0, 6);
  }
}
