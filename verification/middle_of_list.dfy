/** `middle_of_the_linked_list` and its two variants. A list of `n` nodes is
    modelled by positions `0 .. n - 1`; following `next` from position `p`
    leads to `p + 1`, and position `n` stands for `None`, so the head of an
    empty list is position 0 too. A node is returned as its position; the
    list printed from it is the suffix of the values from that position. */
module MiddleOfList {

  /** `r` is the second middle of `n` nodes: the nodes from `r` on are as
      many as those before it, or one more. */
  ghost predicate SecondMiddle(n: nat, r: nat) {
    r < n && r <= n - r <= r + 1
  }

  /** There is exactly one second middle, at `n / 2`. */
  lemma MiddleUnique(n: nat, r: nat)
    requires n > 0
    ensures SecondMiddle(n, r) <==> r == n / 2
  {
  }

  /** `middle_of_the_linked_list(head)`: count the nodes, then walk
      `count // 2` steps from the head. */
  method MiddleOfTheLinkedList(n: nat) returns (ptr: nat)
    ensures n == 0 ==> ptr == n
    ensures n > 0 ==> SecondMiddle(n, ptr)
  {
    var count := 0;
    var temp := 0;
    while temp < n
      invariant temp <= n && count == temp
      decreases n - temp
    {
      temp := temp + 1;
      count := count + 1;
    }
    count := count / 2 + 1;
    ptr := 0;
    for step := 0 to count - 1
      invariant ptr == step
    {
      ptr := ptr + 1;
    }
  }

  /** `sol_middle_of_the_linked_list(head)`: the fast pointer moves two
      nodes for each one of the slow pointer, until it or its successor is
      `None`. */
  method SolMiddleOfTheLinkedList(n: nat) returns (slow: nat)
    ensures n == 0 ==> slow == n
    ensures n > 0 ==> SecondMiddle(n, slow)
  {
    slow := 0;
    var fast := 0;
    while fast < n && fast + 1 < n
      invariant fast == 2 * slow && fast <= n
      decreases n - fast
    {
      slow := slow + 1;
      fast := fast + 2;
    }
  }

  /** `sol_2_middle_of_the_linked_list(head)`: collect the nodes from the
      head into a list and take the one at half its length. The head must be
      a node: the first `arr[-1].next` fails on `None`. */
  method Sol2MiddleOfTheLinkedList(n: nat) returns (r: nat, arr: seq<nat>)
    requires n > 0
    ensures |arr| == n && forall i :: 0 <= i < n ==> arr[i] == i
    ensures SecondMiddle(n, r)
  {
    arr := [0];
    while arr[|arr| - 1] + 1 < n
      invariant 1 <= |arr| <= n
      invariant forall i :: 0 <= i < |arr| ==> arr[i] == i
      decreases n - |arr|
    {
      arr := arr + [arr[|arr| - 1] + 1];
    }
    r := arr[|arr| / 2];
  }

  /** `[1, 2, 3, 4, 5]` prints `3 4 5` from its middle. */
  lemma ExampleOne(r: nat)
    requires SecondMiddle(5, r)
    ensures [1, 2, 3, 4, 5][r..] == [3, 4, 5]
  {
  }

  /** `[1, 2, 3, 4, 5, 6]` prints `4 5 6` from its middle: the second of
      the two middle nodes. */
  lemma ExampleTwo(r: nat)
    requires SecondMiddle(6, r)
    ensures [1, 2, 3, 4, 5, 6][r..] == [4, 5, 6]
  {
  }
}
