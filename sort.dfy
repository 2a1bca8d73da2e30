/**
  Ordering the nodes of a flow (src/utils/sort.ts): a role weight first
  (start, then step, then everything else), then, between two steps, their
  level lists compared lexicographically with a prefix first. A step without
  an order compares equal to every other step.

  `Array.prototype.sort` with this comparator is modelled as a stable
  insertion sort that inserts each element after every element that does
  not compare greater than it.
*/
module Sort {
  import opened Wrappers
  import opened Types
  import opened Seqs
  import opened Graphs

  /** `roleWeight`: start 0, step 1, every other role 2. */
  function RoleWeight(r: Role): (w: nat)
    ensures w <= 2
    ensures w == 0 <==> r == Start
    ensures w == 1 <==> r == Step
  {
    if r == Start then 0 else if r == Step then 1 else 2
  }

  // ---------------------------------------------------------------------
  // Level lists

  /** The length of the longest common prefix of two level lists. */
  function CommonPrefix(a: seq<nat>, b: seq<nat>): (k: nat)
    ensures k <= |a| && k <= |b|
  {
    if a == [] || b == [] || a[0] != b[0] then 0 else 1 + CommonPrefix(a[1..], b[1..])
  }

  /** What the common prefix is: shared, and not extensible. */
  lemma {:induction false} CommonPrefixFacts(a: seq<nat>, b: seq<nat>)
    ensures var k := CommonPrefix(a, b);
      a[..k] == b[..k] && (k < |a| && k < |b| ==> a[k] != b[k])
    decreases |a|
  {
    if !(a == [] || b == [] || a[0] != b[0]) {
      CommonPrefixFacts(a[1..], b[1..]);
      var k := CommonPrefix(a, b);
      assert a[..k] == [a[0]] + a[1..][..k - 1];
      assert b[..k] == [b[0]] + b[1..][..k - 1];
    }
  }

  /** A common prefix that cannot be extended is the longest one. */
  lemma CommonPrefixIs(a: seq<nat>, b: seq<nat>, k: nat)
    requires k <= |a| && k <= |b| && a[..k] == b[..k]
    requires k == |a| || k == |b| || a[k] != b[k]
    ensures CommonPrefix(a, b) == k
  {
    var c := CommonPrefix(a, b);
    CommonPrefixFacts(a, b);
    assert forall i :: 0 <= i < k ==> a[i] == b[i] by {
      forall i | 0 <= i < k ensures a[i] == b[i] {
        assert a[..k][i] == b[..k][i];
      }
    }
    assert forall i :: 0 <= i < c ==> a[i] == b[i] by {
      forall i | 0 <= i < c ensures a[i] == b[i] {
        assert a[..c][i] == b[..c][i];
      }
    }
  }

  /**
    The comparison of two present orders: the first level where they differ
    decides, by the difference of the two levels; when one list is a prefix
    of the other, the shorter comes first.
  */
  function LevelsCompare(a: seq<nat>, b: seq<nat>): int {
    var k := CommonPrefix(a, b);
    if k < |a| && k < |b| then a[k] as int - b[k] as int
    else if |a| < |b| then -1
    else if |a| > |b| then 1
    else 0
  }

  /** `compareOrder`'s value: 0 as soon as either order is absent. */
  function OrderCompare(a: Option<OrderParts>, b: Option<OrderParts>): int {
    if a.None? || b.None? then 0 else LevelsCompare(a.value.levels, b.value.levels)
  }

  /**
    `compareOrder` (sort.ts:13-40): 0 when either order is absent, else a
    walk over the levels that returns at the first index where one list has
    run out or the levels differ.
  */
  method CompareOrder(a: Option<OrderParts>, b: Option<OrderParts>) returns (c: int)
    ensures c == OrderCompare(a, b)
  {
    if a.None? && b.None? {
      return 0;
    }
    if a.None? {
      return 0;
    }
    if b.None? {
      return 0;
    }
    var la, lb := a.value.levels, b.value.levels;
    var len := if |la| > |lb| then |la| else |lb|;
    var i := 0;
    while i < len
      invariant i <= |la| && i <= |lb|
      invariant la[..i] == lb[..i]
    {
      if i == |la| {
        CommonPrefixIs(la, lb, i);
        return -1;
      }
      if i == |lb| {
        CommonPrefixIs(la, lb, i);
        return 1;
      }
      if la[i] != lb[i] {
        CommonPrefixIs(la, lb, i);
        return la[i] as int - lb[i] as int;
      }
      assert la[..i + 1] == la[..i] + [la[i]];
      assert lb[..i + 1] == lb[..i] + [lb[i]];
      i := i + 1;
    }
    CommonPrefixIs(la, lb, i);
    return 0;
  }

  /** `compareNodes` (sort.ts:42-51): role weight first, then the orders of two steps. */
  function CompareNodes(a: Node, b: Node): int {
    var rw := RoleWeight(a.role) - RoleWeight(b.role);
    if rw != 0 then rw
    else if a.role == Step && b.role == Step then OrderCompare(a.order, b.order)
    else 0
  }

  // ---------------------------------------------------------------------
  // What the comparator is

  /** The first differing level decides, numerically. */
  lemma FirstDifferenceDecides(a: seq<nat>, b: seq<nat>, k: nat)
    requires k < |a| && k < |b| && a[..k] == b[..k] && a[k] != b[k]
    ensures LevelsCompare(a, b) == a[k] as int - b[k] as int
  {
    CommonPrefixIs(a, b, k);
  }

  /** A strict prefix sorts before its extensions: `[1]` before `[1, 1]`. */
  lemma PrefixFirst(a: seq<nat>, b: seq<nat>)
    requires |a| < |b| && b[..|a|] == a
    ensures LevelsCompare(a, b) == -1 && LevelsCompare(b, a) == 1
  {
    assert a[..|a|] == a;
    CommonPrefixIs(a, b, |a|);
    CommonPrefixIs(b, a, |a|);
  }

  lemma LevelsCompareAntisymmetric(a: seq<nat>, b: seq<nat>)
    ensures LevelsCompare(a, b) == -LevelsCompare(b, a)
  {
    var k := CommonPrefix(a, b);
    CommonPrefixFacts(a, b);
    CommonPrefixIs(b, a, k);
  }

  /** Two present orders compare 0 exactly when they are the same list. */
  lemma LevelsCompareZero(a: seq<nat>, b: seq<nat>)
    ensures LevelsCompare(a, b) == 0 <==> a == b
  {
    var k := CommonPrefix(a, b);
    CommonPrefixFacts(a, b);
    if k == |a| && k == |b| {
      assert a == a[..k] && b == b[..k];
    }
    if a == b {
      assert a[..|a|] == a;
      CommonPrefixIs(a, b, |a|);
    }
  }

  /** The lexicographic order on level lists is transitive. */
  lemma LevelsCompareTransitive(a: seq<nat>, b: seq<nat>, c: seq<nat>)
    requires LevelsCompare(a, b) < 0 && LevelsCompare(b, c) < 0
    ensures LevelsCompare(a, c) < 0
  {
    var k1, k2 := CommonPrefix(a, b), CommonPrefix(b, c);
    CommonPrefixFacts(a, b);
    CommonPrefixFacts(b, c);
    if k1 < k2 {
      assert a[..k1] == c[..k1] by {
        assert c[..k2][..k1] == c[..k1] && b[..k2][..k1] == b[..k1];
      }
      assert b[k1] == c[k1] by { assert b[..k2][k1] == c[..k2][k1]; }
      CommonPrefixIs(a, c, k1);
    } else if k2 < k1 {
      assert a[..k2] == c[..k2] by {
        assert a[..k1][..k2] == a[..k2] && b[..k1][..k2] == b[..k2];
      }
      assert a[k2] == b[k2] by { assert a[..k1][k2] == b[..k1][k2]; }
      CommonPrefixIs(a, c, k2);
    } else {
      CommonPrefixIs(a, c, k1);
    }
  }

  /** A step whose order is present, or a node of another role. */
  predicate Ordered(n: Node) {
    n.role == Step ==> n.order.Some?
  }

  predicate AllOrdered(s: seq<Node>) {
    forall i :: 0 <= i < |s| ==> Ordered(s[i])
  }

  /** Swapping the arguments negates the comparison, ordered or not. */
  lemma CompareNodesAntisymmetric(a: Node, b: Node)
    ensures CompareNodes(a, b) == -CompareNodes(b, a)
  {
    if a.role == Step && b.role == Step && a.order.Some? && b.order.Some? {
      LevelsCompareAntisymmetric(a.order.value.levels, b.order.value.levels);
    }
  }

  /** Role decides first: start before step before every other role. */
  lemma RoleDecidesFirst(a: Node, b: Node)
    requires RoleWeight(a.role) < RoleWeight(b.role)
    ensures CompareNodes(a, b) < 0
  {
  }

  /**
    Between nodes with orders the comparator is a total preorder: 0 exactly
    for the same role weight and, for steps, the same levels.
  */
  lemma CompareNodesZero(a: Node, b: Node)
    requires Ordered(a) && Ordered(b)
    ensures CompareNodes(a, b) == 0 <==>
              RoleWeight(a.role) == RoleWeight(b.role) && (a.role == Step ==> a.order.value.levels == b.order.value.levels)
  {
    if a.role == Step && b.role == Step {
      LevelsCompareZero(a.order.value.levels, b.order.value.levels);
    }
  }

  lemma CompareNodesTransitive(a: Node, b: Node, c: Node)
    requires Ordered(a) && Ordered(b) && Ordered(c)
    ensures CompareNodes(a, b) <= 0 && CompareNodes(b, c) <= 0 ==> CompareNodes(a, c) <= 0
    ensures CompareNodes(a, b) < 0 && CompareNodes(b, c) <= 0 ==> CompareNodes(a, c) < 0
    ensures CompareNodes(a, b) <= 0 && CompareNodes(b, c) < 0 ==> CompareNodes(a, c) < 0
  {
    CompareNodesZero(a, b);
    CompareNodesZero(b, c);
    CompareNodesZero(a, c);
    if a.role == Step && b.role == Step && c.role == Step {
      var la, lb, lc := a.order.value.levels, b.order.value.levels, c.order.value.levels;
      if LevelsCompare(la, lb) < 0 && LevelsCompare(lb, lc) < 0 {
        LevelsCompareTransitive(la, lb, lc);
      }
    }
  }

  /**
    With a step that has no order the comparator is not transitive: `[2]`
    and `[1]` both tie with it, yet `[2]` sorts after `[1]`.
  */
  lemma UnorderedStepBreaksTransitivity(x: Node, y: Node, z: Node)
    requires x.role == Step && x.order == Some(OrderParts([2]))
    requires y.role == Step && y.order == None
    requires z.role == Step && z.order == Some(OrderParts([1]))
    ensures CompareNodes(x, y) == 0 && CompareNodes(y, z) == 0 && CompareNodes(x, z) > 0
  {
    FirstDifferenceDecides([2], [1], 0);
  }

  // ---------------------------------------------------------------------
  // The stable sort

  /**
    One insertion: `x` goes in after the last element that does not compare
    greater than it; the greater ones at the end stay after it.
  */
  function Insert(t: seq<Node>, x: Node): (r: seq<Node>)
    ensures |r| == |t| + 1
  {
    if t == [] then [x]
    else if CompareNodes(t[|t| - 1], x) > 0 then Insert(t[..|t| - 1], x) + [t[|t| - 1]]
    else t + [x]
  }

  /** `Array.prototype.sort(compareNodes)`: each element in turn inserted into the sorted prefix. */
  function InsertionSort(s: seq<Node>): (r: seq<Node>)
    ensures |r| == |s|
  {
    if s == [] then [] else Insert(InsertionSort(s[..|s| - 1]), s[|s| - 1])
  }

  /** The sort is a permutation: the same nodes, each as often as before. */
  lemma {:induction false} InsertionSortPermutation(s: seq<Node>)
    ensures multiset(InsertionSort(s)) == multiset(s)
    decreases |s|
  {
    if s != [] {
      var init, x := s[..|s| - 1], s[|s| - 1];
      calc {
        multiset(InsertionSort(s));
        multiset(Insert(InsertionSort(init), x));
        { InsertPermutation(InsertionSort(init), x); }
        multiset(InsertionSort(init)) + multiset{x};
        { InsertionSortPermutation(init); }
        multiset(init) + multiset{x};
        { assert s == init + [x]; }
        multiset(s);
      }
    }
  }

  lemma InsertPermutation(t: seq<Node>, x: Node)
    ensures multiset(Insert(t, x)) == multiset(t) + multiset{x}
  {
    var j := InsertSplit(t, x);
    calc {
      multiset(Insert(t, x));
      multiset(t[..j] + [x] + t[j..]);
      multiset(t[..j]) + multiset{x} + multiset(t[j..]);
      { assert t == t[..j] + t[j..]; }
      multiset(t) + multiset{x};
    }
  }

  /** Where `Insert` puts `x`: after a prefix that ends in a non-greater element, before a run of greater ones. */
  lemma {:induction false} InsertSplit(t: seq<Node>, x: Node) returns (j: nat)
    ensures j <= |t| && Insert(t, x) == t[..j] + [x] + t[j..]
    ensures j > 0 ==> CompareNodes(t[j - 1], x) <= 0
    ensures forall i :: j <= i < |t| ==> CompareNodes(t[i], x) > 0
    decreases |t|
  {
    if t == [] {
      j := 0;
    } else if CompareNodes(t[|t| - 1], x) > 0 {
      var init := t[..|t| - 1];
      var last := t[|t| - 1];
      assert Insert(t, x) == Insert(init, x) + [last];
      j := InsertSplit(init, x);
      SplitLater(t, x, init, last, j);
    } else {
      j := |t|;
      assert t[..j] == t;
    }
  }

  /** The split point of the prefix is the split point of the whole when the last element is greater than `x`. */
  lemma SplitLater(t: seq<Node>, x: Node, init: seq<Node>, last: Node, j: nat)
    requires t != [] && init == t[..|t| - 1] && last == t[|t| - 1] && CompareNodes(last, x) > 0
    requires j <= |init| && Insert(init, x) == init[..j] + [x] + init[j..]
    requires j > 0 ==> CompareNodes(init[j - 1], x) <= 0
    requires forall i :: j <= i < |init| ==> CompareNodes(init[i], x) > 0
    ensures Insert(init, x) + [last] == t[..j] + [x] + t[j..]
    ensures j > 0 ==> CompareNodes(t[j - 1], x) <= 0
    ensures forall i :: j <= i < |t| ==> CompareNodes(t[i], x) > 0
  {
    SplitPieces(t, init, last, j);
    forall i | j <= i < |t| ensures CompareNodes(t[i], x) > 0 {
      if i < |init| {
        assert t[i] == init[i];
      }
    }
  }

  lemma SplitPieces(t: seq<Node>, init: seq<Node>, last: Node, j: nat)
    requires t != [] && init == t[..|t| - 1] && last == t[|t| - 1] && j <= |init|
    ensures init[..j] == t[..j] && init[j..] + [last] == t[j..]
    ensures j > 0 ==> init[j - 1] == t[j - 1]
  {
    assert init[j..] + [last] == t[j..];
  }

  /** Every neighbouring pair is in order. */
  predicate Ascending(r: seq<Node>) {
    forall i :: 0 < i < |r| ==> CompareNodes(r[i - 1], r[i]) <= 0
  }

  /** Every pair is in order. */
  predicate Sorted(r: seq<Node>) {
    forall i, j :: 0 <= i < j < |r| ==> CompareNodes(r[i], r[j]) <= 0
  }

  lemma {:induction false} InsertAscending(t: seq<Node>, x: Node)
    requires Ascending(t)
    ensures Ascending(Insert(t, x))
  {
    var j := InsertSplit(t, x);
    var r := Insert(t, x);
    forall i | 0 < i < |r| ensures CompareNodes(r[i - 1], r[i]) <= 0 {
      if i < j {
        assert r[i - 1] == t[i - 1] && r[i] == t[i];
      } else if i == j {
        assert r[i - 1] == t[j - 1] && r[i] == x;
      } else if i == j + 1 {
        assert r[i - 1] == x && r[i] == t[j];
        CompareNodesAntisymmetric(t[j], x);
      } else {
        assert r[i - 1] == t[i - 2] && r[i] == t[i - 1];
      }
    }
  }

  /**
    The sorted list is always in order pair by pair, whatever the orders:
    the comparator is antisymmetric even where it is not transitive.
  */
  lemma {:induction false} InsertionSortAscending(s: seq<Node>)
    ensures Ascending(InsertionSort(s))
    decreases |s|
  {
    if s != [] {
      InsertionSortAscending(s[..|s| - 1]);
      InsertAscending(InsertionSort(s[..|s| - 1]), s[|s| - 1]);
    }
  }

  /** Sorting a list already in order gives it back unchanged. */
  lemma {:induction false} AscendingFixpoint(t: seq<Node>)
    requires Ascending(t)
    ensures InsertionSort(t) == t
    decreases |t|
  {
    if t != [] {
      var init := t[..|t| - 1];
      assert Ascending(init);
      AscendingFixpoint(init);
      assert t == init + [t[|t| - 1]];
      if |init| > 0 {
        assert CompareNodes(init[|init| - 1], t[|t| - 1]) <= 0;
      }
    }
  }

  /** Sorting twice is sorting once. */
  lemma InsertionSortIdempotent(s: seq<Node>)
    ensures InsertionSort(InsertionSort(s)) == InsertionSort(s)
  {
    InsertionSortAscending(s);
    AscendingFixpoint(InsertionSort(s));
  }

  /** With every step ordered, neighbours in order means every pair in order. */
  lemma {:induction false} AscendingSorted(r: seq<Node>)
    requires AllOrdered(r) && Ascending(r)
    ensures Sorted(r)
    decreases |r|
  {
    if |r| > 1 {
      var init := r[..|r| - 1];
      assert AllOrdered(init) && Ascending(init);
      AscendingSorted(init);
      var n := |r| - 1;
      forall i | 0 <= i < n ensures CompareNodes(r[i], r[n]) <= 0 {
        if i < n - 1 {
          assert CompareNodes(r[i], r[n - 1]) <= 0 by { assert init[i] == r[i] && init[n - 1] == r[n - 1]; }
          CompareNodesTransitive(r[i], r[n - 1], r[n]);
        }
      }
      forall i, j | 0 <= i < j < |r| ensures CompareNodes(r[i], r[j]) <= 0 {
        if j < n {
          assert init[i] == r[i] && init[j] == r[j];
        }
      }
    }
  }

  /** With every step ordered, the result of the sort is sorted. */
  lemma InsertionSortSorted(s: seq<Node>)
    requires AllOrdered(s)
    ensures Sorted(InsertionSort(s))
  {
    var r := InsertionSort(s);
    InsertionSortPermutation(s);
    forall i | 0 <= i < |r| ensures Ordered(r[i]) {
      assert r[i] in multiset(s);
    }
    InsertionSortAscending(s);
    AscendingSorted(r);
  }

  /** Ties with `k`: the nodes that compare 0 with it. */
  function TieWith(k: Node): Node -> bool {
    n => CompareNodes(n, k) == 0
  }

  function Ties(s: seq<Node>, k: Node): seq<Node> {
    Filter(s, TieWith(k))
  }

  /** One insertion adds `x` to the ties of `k` exactly when it ties with `k`, at their end. */
  lemma TiesInsert(t: seq<Node>, x: Node, k: Node)
    requires AllOrdered(t) && Ordered(x) && Ordered(k)
    ensures Ties(Insert(t, x), k) == Ties(t, k) + Ties([x], k)
  {
    if CompareNodes(x, k) == 0 {
      TiesInsertTie(t, x, k);
    } else {
      FilterInsert(t, x, TieWith(k));
    }
  }

  /** A node that ties with `k` goes in after every tie already there. */
  lemma TiesInsertTie(t: seq<Node>, x: Node, k: Node)
    requires AllOrdered(t) && Ordered(x) && Ordered(k) && CompareNodes(x, k) == 0
    ensures Ties(Insert(t, x), k) == Ties(t, k) + [x]
  {
    var j := InsertSplit(t, x);
    NoTiesAfter(t, x, k, j);
    FilterAround(t, x, j, TieWith(k));
  }

  /** Past the insertion point of a tie of `k`, nothing ties with `k`. */
  lemma NoTiesAfter(t: seq<Node>, x: Node, k: Node, j: nat)
    requires AllOrdered(t) && Ordered(x) && Ordered(k) && CompareNodes(x, k) == 0
    requires j <= |t| && forall i :: j <= i < |t| ==> CompareNodes(t[i], x) > 0
    ensures Filter(t[j..], TieWith(k)) == []
  {
    var p := TieWith(k);
    var u := t[j..];
    forall i | 0 <= i < |u| ensures !p(u[i]) {
      TieAfter(x, k, t[j + i]);
    }
    FilterNone(u, p);
  }

  /** What sorts after a node sorts after everything that ties with it. */
  lemma TieAfter(x: Node, k: Node, e: Node)
    requires Ordered(x) && Ordered(k) && Ordered(e)
    requires CompareNodes(x, k) == 0 && CompareNodes(e, x) > 0
    ensures CompareNodes(e, k) != 0
  {
    CompareNodesAntisymmetric(x, e);
    CompareNodesAntisymmetric(x, k);
    CompareNodesTransitive(k, x, e);
    CompareNodesAntisymmetric(k, e);
  }

  /**
    Stability: with every step ordered, the nodes that tie with any given
    node come out of the sort in the order they went in.
  */
  lemma {:induction false} InsertionSortStable(s: seq<Node>, k: Node)
    requires AllOrdered(s) && Ordered(k)
    ensures Ties(InsertionSort(s), k) == Ties(s, k)
    decreases |s|
  {
    if s != [] {
      var init, x := s[..|s| - 1], s[|s| - 1];
      assert s == init + [x];
      assert AllOrdered(init);
      InsertionSortStable(init, k);
      var t := InsertionSort(init);
      SortKeepsOrdered(init);
      assert InsertionSort(s) == Insert(t, x);
      TiesInsert(t, x, k);
      FilterAppend(init, [x], TieWith(k));
      assert Ties(s, k) == Ties(init, k) + Ties([x], k);
    }
  }

  /** Sorting keeps every step ordered. */
  lemma SortKeepsOrdered(s: seq<Node>)
    requires AllOrdered(s)
    ensures AllOrdered(InsertionSort(s))
  {
    var t := InsertionSort(s);
    InsertionSortPermutation(s);
    forall i | 0 <= i < |t| ensures Ordered(t[i]) {
      assert t[i] in multiset(s);
    }
  }

  /** Inserting a list of nodes one by one into `t`. */
  function InsertAll(t: seq<Node>, b: seq<Node>): seq<Node> {
    if b == [] then t else Insert(InsertAll(t, b[..|b| - 1]), b[|b| - 1])
  }

  /** Sorting `a + b` is sorting `a`, then inserting `b`'s nodes in turn. */
  lemma {:induction false} SortAppend(a: seq<Node>, b: seq<Node>)
    ensures InsertionSort(a + b) == InsertAll(InsertionSort(a), b)
    decreases |b|
  {
    if b == [] {
      assert a + b == a;
    } else {
      var init := b[..|b| - 1];
      assert (a + b)[..|a + b| - 1] == a + init;
      SortAppend(a, init);
    }
  }

  /** Inserting a node that fails `p` leaves the nodes that pass `p`, and their order, alone. */
  lemma {:induction false} FilterInsert(u: seq<Node>, x: Node, p: Node -> bool)
    requires !p(x)
    ensures Filter(Insert(u, x), p) == Filter(u, p)
  {
    var j := InsertSplit(u, x);
    calc {
      Filter(Insert(u, x), p);
      Filter(u[..j] + [x] + u[j..], p);
      { FilterAppend(u[..j] + [x], u[j..], p); }
      Filter(u[..j] + [x], p) + Filter(u[j..], p);
      { FilterAppend(u[..j], [x], p); assert Filter([x], p) == []; }
      Filter(u[..j], p) + Filter(u[j..], p);
      { FilterAppend(u[..j], u[j..], p); assert u == u[..j] + u[j..]; }
      Filter(u, p);
    }
  }

  lemma {:induction false} FilterInsertAll(t: seq<Node>, b: seq<Node>, p: Node -> bool)
    requires forall x :: x in b ==> !p(x)
    ensures Filter(InsertAll(t, b), p) == Filter(t, p)
    decreases |b|
  {
    if b != [] {
      var init, x := b[..|b| - 1], b[|b| - 1];
      assert forall y :: y in init ==> y in b;
      assert x in b;
      FilterInsertAll(t, init, p);
      FilterInsert(InsertAll(t, init), x, p);
    }
  }

  // ---------------------------------------------------------------------
  // In place

  /** The engine's in-place sort of an array of nodes with `compareNodes`. */
  method SortInPlace(a: array<Node>)
    modifies a
    ensures a[..] == InsertionSort(old(a[..]))
  {
    ghost var s := a[..];
    var i := 0;
    while i < a.Length
      invariant 0 <= i <= a.Length
      invariant a[..i] == InsertionSort(s[..i])
      invariant a[i..] == s[i..]
    {
      ghost var rest := a[i..];
      assert a[i] == rest[0] == s[i];
      InsertAt(a, i);
      ghost var next := s[..i + 1];
      assert next[..i] == s[..i] && next[i] == s[i];
      assert InsertionSort(next) == Insert(InsertionSort(s[..i]), s[i]);
      assert a[i + 1..] == rest[1..] == s[i + 1..];
      i := i + 1;
    }
    assert a[..] == a[..a.Length] && s == s[..a.Length];
  }

  /** One step of the sort: `a[i]` moved into the sorted prefix `a[..i]`, the greater ones shifted right. */
  method InsertAt(a: array<Node>, i: nat)
    requires i < a.Length
    modifies a
    ensures a[..i + 1] == Insert(old(a[..i]), old(a[i]))
    ensures a[i + 1..] == old(a[i + 1..])
  {
    var x := a[i];
    ghost var t := a[..i];
    ghost var u := a[..];
    var j := FindGap(a, i, x);
    InsertAtPoint(t, x, j);
    ShiftRight(a, j, i);
    assert forall k :: 0 <= k < j ==> a[k] == t[k];
    assert forall k :: j < k <= i ==> a[k] == t[k - 1];
    a[j] := x;
    Placed(a[..], t, x, j);
    SameTail(a[..], u, i);
  }

  lemma SameTail(s: seq<Node>, u: seq<Node>, i: nat)
    requires i < |s| == |u| && forall k :: i < k < |s| ==> s[k] == u[k]
    ensures s[i + 1..] == u[i + 1..]
  {
  }

  /**
    The search half of the insertion: `j` is the start of the run at the
    end of `a[..i]` of elements greater than `x`.
  */
  method FindGap(a: array<Node>, i: nat, x: Node) returns (j: nat)
    requires i < a.Length
    ensures j <= i
    ensures j > 0 ==> CompareNodes(a[j - 1], x) <= 0
    ensures forall k {:trigger a[k]} :: j <= k < i ==> CompareNodes(a[k], x) > 0
  {
    j := i;
    while j > 0 && CompareNodes(a[j - 1], x) > 0
      invariant j <= i
      invariant forall k {:trigger a[k]} :: j <= k < i ==> CompareNodes(a[k], x) > 0
    {
      j := j - 1;
    }
  }

  /** The moving half: `a[j..i]` moves one place right, over `a[i]`. */
  method ShiftRight(a: array<Node>, j: nat, i: nat)
    requires j <= i < a.Length
    modifies a
    ensures forall k :: 0 <= k <= j ==> a[k] == old(a[k])
    ensures forall k :: j < k <= i ==> a[k] == old(a[k - 1])
    ensures forall k :: i < k < a.Length ==> a[k] == old(a[k])
  {
    var m := i;
    while m > j
      invariant j <= m <= i
      invariant forall k :: 0 <= k <= m ==> a[k] == old(a[k])
      invariant forall k :: m < k <= i ==> a[k] == old(a[k - 1])
      invariant forall k :: i < k < a.Length ==> a[k] == old(a[k])
    {
      a[m] := a[m - 1];
      m := m - 1;
    }
  }

  /** `x` goes in at `j` when the element before `j` is not greater than it and every element from `j` on is. */
  lemma {:induction false} InsertAtPoint(t: seq<Node>, x: Node, j: nat)
    requires j <= |t| && (j > 0 ==> CompareNodes(t[j - 1], x) <= 0)
    requires forall k {:trigger CompareNodes(t[k], x)} :: j <= k < |t| ==> CompareNodes(t[k], x) > 0
    ensures Insert(t, x) == t[..j] + [x] + t[j..]
    decreases |t|
  {
    if j == |t| {
      assert t[..j] == t;
    } else {
      var init := t[..|t| - 1];
      var last := t[|t| - 1];
      SplitPieces(t, init, last, j);
      forall k | j <= k < |init| ensures CompareNodes(init[k], x) > 0 {
        assert init[k] == t[k];
      }
      assert CompareNodes(last, x) > 0;
      InsertAtPoint(init, x, j);
      assert Insert(t, x) == Insert(init, x) + [last];
    }
  }

  /** A list holding `t[..j]`, then `x`, then `t[j..]` starts with `Insert(t, x)` when that is where `x` goes. */
  lemma Placed(s: seq<Node>, t: seq<Node>, x: Node, j: nat)
    requires j <= |t| < |s| && Insert(t, x) == t[..j] + [x] + t[j..]
    requires forall k :: 0 <= k < j ==> s[k] == t[k]
    requires s[j] == x
    requires forall k :: j < k <= |t| ==> s[k] == t[k - 1]
    ensures s[..|t| + 1] == Insert(t, x)
  {
    var r := t[..j] + [x] + t[j..];
    forall k | 0 <= k <= |t| ensures s[k] == r[k] {
      if k < j {
        assert r[k] == t[k];
      } else if k > j {
        assert r[k] == t[k - 1];
      }
    }
  }

  /** `sortFeatureGraph` (sort.ts:53-56): the feature's nodes sorted in place; the same object comes back. */
  method SortFeatureGraph(fg: FeatureGraph) returns (r: FeatureGraph)
    modifies fg
    ensures r == fg
    ensures fg.nodes == InsertionSort(old(fg.nodes)) && fg.issues == old(fg.issues)
  {
    var s := fg.nodes;
    var a := new Node[|s|](i requires 0 <= i < |s| => s[i]);
    assert a[..] == s;
    SortInPlace(a);
    fg.nodes := a[..];
    r := fg;
  }

  /** Every node list of a map of features, sorted. */
  function SortAll(m: map<string, seq<Node>>): (r: map<string, seq<Node>>)
    ensures r.Keys == m.Keys
  {
    map k | k in m :: InsertionSort(m[k])
  }

  /** `sortGraph` (sort.ts:58-61): every feature sorted, nothing else touched; the same graph comes back. */
  method SortGraph(graph: Graph) returns (r: Graph)
    requires graph.Valid()
    modifies graph.Repr()
    ensures r == graph && graph.Valid()
    ensures graph.Contents() == SortAll(old(graph.Contents()))
    ensures graph.Issues() == old(graph.Issues())
  {
    ghost var c0 := graph.Contents();
    ghost var i0 := graph.Issues();
    var ks := graph.keys;
    for i := 0 to |ks|
      invariant graph.Valid() && graph.keys == ks
      invariant SortedUpTo(graph, i, c0, i0)
    {
      SortFeatureAt(graph, i, c0, i0);
    }
    SortedAll(graph, c0, i0);
    r := graph;
  }

  /** The features named by the first `i` keys are sorted, the others are as in `c0`; the issues are those of `i0`. */
  ghost predicate SortedUpTo(graph: Graph, i: nat, c0: map<string, seq<Node>>, i0: map<string, Option<FeatureIssues>>)
    reads graph, graph.Repr()
  {
    SortedPrefix(graph.Contents(), graph.keys, i, c0) && graph.Issues() == i0
  }

  /** `SortedUpTo`, on the node lists `m`. */
  predicate SortedPrefix(m: map<string, seq<Node>>, keys: seq<string>, i: nat, c0: map<string, seq<Node>>) {
    && i <= |keys|
    && c0.Keys == m.Keys
    && (forall j :: 0 <= j < |keys| && keys[j] in m ==>
          m[keys[j]] == if j < i then InsertionSort(c0[keys[j]]) else c0[keys[j]])
  }

  /** One turn of `sortGraph`'s loop: the feature under the `i`-th key sorted, every other feature untouched. */
  method SortFeatureAt(graph: Graph, i: nat, ghost c0: map<string, seq<Node>>, ghost i0: map<string, Option<FeatureIssues>>)
    requires graph.Valid() && i < |graph.keys| && SortedUpTo(graph, i, c0, i0)
    modifies graph.Repr()
    ensures graph.Valid() && SortedUpTo(graph, i + 1, c0, i0)
  {
    var k := graph.keys[i];
    ghost var m0, is0 := graph.Contents(), graph.Issues();
    EntryAt(graph, k);
    var fg := graph.features[k];
    var _ := SortFeatureGraph(fg);
    ghost var v := InsertionSort(m0[k]);
    forall x | x in graph.features
      ensures graph.features[x].nodes == if x == k then v else m0[x]
      ensures graph.features[x].issues == is0[x]
    {
      if x != k {
        assert graph.features[x] != fg;
      }
    }
    NodesAre(graph, m0, k, v);
    IssuesAre(graph, is0);
    SortedStep(m0, graph.keys, i, c0, k, v);
  }

  lemma NodesAre(graph: Graph, m: map<string, seq<Node>>, k: string, v: seq<Node>)
    requires m.Keys == graph.features.Keys && k in m
    requires forall x :: x in graph.features ==> graph.features[x].nodes == if x == k then v else m[x]
    ensures graph.Contents() == m[k := v]
  {
    assert graph.Contents().Keys == m[k := v].Keys;
  }

  lemma IssuesAre(graph: Graph, m: map<string, Option<FeatureIssues>>)
    requires m.Keys == graph.features.Keys
    requires forall x :: x in graph.features ==> graph.features[x].issues == m[x]
    ensures graph.Issues() == m
  {
    assert graph.Issues().Keys == m.Keys;
  }

  lemma SortedStep(m: map<string, seq<Node>>, keys: seq<string>, i: nat, c0: map<string, seq<Node>>, k: string, v: seq<Node>)
    requires SortedPrefix(m, keys, i, c0) && i < |keys| && Distinct(keys)
    requires k == keys[i] && k in m && v == InsertionSort(m[k])
    ensures SortedPrefix(m[k := v], keys, i + 1, c0)
  {
    forall j | 0 <= j < |keys| && j != i ensures keys[j] != keys[i] {
    }
  }

  lemma SortedAll(graph: Graph, c0: map<string, seq<Node>>, i0: map<string, Option<FeatureIssues>>)
    requires graph.Valid() && SortedUpTo(graph, |graph.keys|, c0, i0)
    ensures graph.Contents() == SortAll(c0) && graph.Issues() == i0
  {
    SortedPrefixAll(graph.Contents(), graph.keys, c0);
  }

  lemma SortedPrefixAll(m: map<string, seq<Node>>, keys: seq<string>, c0: map<string, seq<Node>>)
    requires SortedPrefix(m, keys, |keys|, c0) && forall k :: k in m ==> k in keys
    ensures m == SortAll(c0)
  {
    forall k | k in m ensures m[k] == InsertionSort(c0[k]) {
      var j :| 0 <= j < |keys| && keys[j] == k;
    }
    assert m.Keys == SortAll(c0).Keys;
  }
}
