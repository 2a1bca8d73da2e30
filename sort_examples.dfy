/**
  The two cases of the repository's sorter tests (src/test/sort.test.ts),
  computed with the model of `sortFeatureGraph`. The tests look only at the
  roles and levels of the result, so the nodes here are any nodes with the
  tests' roles and orders.
*/
module SortExamples {
  import opened Wrappers
  import opened Types
  import opened Sort

  predicate IsStep(n: Node, levels: seq<nat>) {
    n.role == Step && n.order == Some(OrderParts(levels))
  }

  /** `[step 1.2, end, start, step 1.1, step 1]` sorts to start, 1, 1.1, 1.2, end. */
  lemma RoleAndOrderSort(s: seq<Node>)
    requires |s| == 5 && IsStep(s[0], [1, 2]) && s[1].role == End && s[2].role == Start
    requires IsStep(s[3], [1, 1]) && IsStep(s[4], [1])
    ensures InsertionSort(s) == [s[2], s[4], s[3], s[0], s[1]]
  {
    var a, b, c, d, e := s[0], s[1], s[2], s[3], s[4];
    StepsCompare(a, d, e);
    RoleDecidesFirst(c, d);
    RoleDecidesFirst(c, e);
    RoleDecidesFirst(d, b);
    RoleDecidesFirst(e, b);
    CompareNodesAntisymmetric(d, b);
    CompareNodesAntisymmetric(e, b);
    FirstThree(s);
    SortPrefix(s, 4);
    SortPrefix(s, 5);
    LastTwo(c, a, b, d, e);
    assert s[..5] == s;
  }

  /** The three steps `1.2`, `1.1` and `1` compare as their level lists do: `1` < `1.1` < `1.2`. */
  lemma StepsCompare(a: Node, d: Node, e: Node)
    requires IsStep(a, [1, 2]) && IsStep(d, [1, 1]) && IsStep(e, [1])
    ensures CompareNodes(a, d) > 0 && CompareNodes(d, e) > 0 && CompareNodes(a, e) > 0
  {
    PrefixFirst([1], [1, 1]);
    PrefixFirst([1], [1, 2]);
    FirstDifferenceDecides([1, 2], [1, 1], 1);
  }

  /** Inserting two nodes that both go in right after `c`, the later one first. */
  lemma LastTwo(c: Node, a: Node, b: Node, d: Node, e: Node)
    requires CompareNodes(c, d) <= 0 && CompareNodes(a, d) > 0 && CompareNodes(b, d) > 0
    requires CompareNodes(c, e) <= 0 && CompareNodes(d, e) > 0 && CompareNodes(a, e) > 0 && CompareNodes(b, e) > 0
    ensures Insert(Insert([c, a, b], d), e) == [c, e, d, a, b]
  {
    InsertSecondOfThree(c, a, b, d);
    InsertSecondOfFour(c, d, a, b, e);
  }

  lemma InsertSecondOfThree(c: Node, a: Node, b: Node, x: Node)
    requires CompareNodes(c, x) <= 0 && CompareNodes(a, x) > 0 && CompareNodes(b, x) > 0
    ensures Insert([c, a, b], x) == [c, x, a, b]
  {
    var rest := [a, b];
    assert forall k :: 0 <= k < |rest| ==> rest[k] == a || rest[k] == b;
    AfterFirst(c, rest, x);
    assert [c] + rest == [c, a, b] && [c, x] + rest == [c, x, a, b];
  }

  lemma InsertSecondOfFour(c: Node, d: Node, a: Node, b: Node, x: Node)
    requires CompareNodes(c, x) <= 0 && CompareNodes(d, x) > 0 && CompareNodes(a, x) > 0 && CompareNodes(b, x) > 0
    ensures Insert([c, d, a, b], x) == [c, x, d, a, b]
  {
    var rest := [d, a, b];
    assert forall k :: 0 <= k < |rest| ==> rest[k] == d || rest[k] == a || rest[k] == b;
    AfterFirst(c, rest, x);
    assert [c] + rest == [c, d, a, b] && [c, x] + rest == [c, x, d, a, b];
  }

  /** A node that goes in right after the first element of a list. */
  lemma AfterFirst(c: Node, rest: seq<Node>, x: Node)
    requires CompareNodes(c, x) <= 0
    requires forall k :: 0 <= k < |rest| ==> CompareNodes(rest[k], x) > 0
    ensures Insert([c] + rest, x) == [c, x] + rest
  {
    var t := [c] + rest;
    InsertAtPoint(t, x, 1);
    assert t[..1] == [c] && t[1..] == rest;
  }

  /** The first three of them, a step, an end and a start, sort to start, step, end. */
  lemma FirstThree(s: seq<Node>)
    requires |s| >= 3 && s[0].role == Step && s[1].role == End && s[2].role == Start
    ensures InsertionSort(s[..3]) == [s[2], s[0], s[1]]
  {
    var a, b, c := s[0], s[1], s[2];
    SortPrefix(s, 1);
    assert s[..0] == [];
    SortPrefix(s, 2);
    InsertAtPoint([a], b, 1);
    SortPrefix(s, 3);
    InsertAtPoint([a, b], c, 0);
  }

  /** Sorting the first `k` elements: the first `k - 1` sorted, then the `k`-th inserted. */
  lemma SortPrefix(s: seq<Node>, k: nat)
    requires 0 < k <= |s|
    ensures InsertionSort(s[..k]) == Insert(InsertionSort(s[..k - 1]), s[k - 1])
  {
    assert s[..k][..k - 1] == s[..k - 1];
  }

  /** `[start, step 2, step 2, end]` is already in order, and the two equal steps keep their places. */
  lemma EqualOrdersKeepPlace(s: seq<Node>)
    requires |s| == 4 && s[0].role == Start && IsStep(s[1], [2]) && IsStep(s[2], [2]) && s[3].role == End
    ensures InsertionSort(s) == s
  {
    LevelsCompareZero([2], [2]);
    assert Ascending(s);
    AscendingFixpoint(s);
  }
}
