/**
  The two cases of the repository's validator tests
  (src/test/validator.test.ts), computed with the model of
  `computeFeatureIssues`. Only roles and orders matter to the issues, so
  the nodes are any nodes with the tests' roles and orders.
*/
module ValidatorExamples {
  import opened Wrappers
  import opened Types
  import opened Seqs
  import opened Validator

  predicate IsStep(n: Node, levels: seq<nat>) {
    n.role == Step && n.order == Some(OrderParts(levels))
  }

  lemma OrderStrings()
    ensures OrderToString(Some(OrderParts([1]))) == "1"
    ensures OrderToString(Some(OrderParts([2, 3]))) == "2.3"
  {
    assert LevelStrings([2, 3]) == ["2", "3"];
  }

  lemma StepKeysOne(n: Node)
    ensures StepKeys([n]) == (if StepKey(n).Some? then [StepKey(n).value] else [])
  {
    assert [n][..0] == [];
  }

  lemma FilterOne(n: Node, p: Node -> bool)
    ensures Filter([n], p) == (if p(n) then [n] else [])
  {
    assert [n][..0] == [];
  }

  /** The issues' three parts for a list of three nodes, from the nodes one by one. */
  lemma Three(a: Node, b: Node, c: Node)
    ensures StepKeys([a, b, c]) == StepKeys([a]) + StepKeys([b]) + StepKeys([c])
    ensures forall r :: CountRole([a, b, c], r) == |Filter([a], HasRole(r))| + |Filter([b], HasRole(r))| + |Filter([c], HasRole(r))|
  {
    assert [a, b, c] == [a] + [b] + [c];
    StepKeysAppend([a] + [b], [c]);
    StepKeysAppend([a], [b]);
    forall r ensures CountRole([a, b, c], r) == |Filter([a], HasRole(r))| + |Filter([b], HasRole(r))| + |Filter([c], HasRole(r))| {
      FilterAppend([a] + [b], [c], HasRole(r));
      FilterAppend([a], [b], HasRole(r));
    }
  }

  /** A key counted twice is reported once, with count 2. */
  lemma Twice(k: string)
    ensures Duplicates(FirstOccurrences([k, k]), [k, k]) == [OrderCount(k, 2)]
  {
    assert [k][..0] == [];
    assert FirstOccurrences([k]) == [k];
    assert [k, k][..1] == [k];
    assert FirstOccurrences([k, k]) == [k];
    assert multiset([k, k])[k] == 2;
  }

  /** Two steps `1` and an end: no start, and order `1` is used twice. */
  lemma DuplicateStepsWithoutStart(s: seq<Node>)
    requires |s| == 3 && IsStep(s[0], [1]) && IsStep(s[1], [1]) && s[2].role == End
    ensures IssuesOf(s) == FeatureIssues(true, false, Some([OrderCount("1", 2)]))
  {
    assert s == [s[0], s[1], s[2]];
    Three(s[0], s[1], s[2]);
    assert StepKeys(s) == ["1", "1"] by {
      OrderStrings();
      StepKeysOne(s[0]);
      StepKeysOne(s[1]);
      StepKeysOne(s[2]);
    }
    assert CountRole(s, Start) == 0 by {
      FilterOne(s[0], HasRole(Start));
      FilterOne(s[1], HasRole(Start));
      FilterOne(s[2], HasRole(Start));
    }
    assert CountRole(s, End) == 1 by {
      FilterOne(s[0], HasRole(End));
      FilterOne(s[1], HasRole(End));
      FilterOne(s[2], HasRole(End));
    }
    Twice("1");
  }

  /** Adding two starts to those nodes still reports the start, now as duplicated. */
  lemma TwoStartsStillMissing(s: seq<Node>, x: Node, y: Node)
    requires |s| == 3 && IsStep(s[0], [1]) && IsStep(s[1], [1]) && s[2].role == End
    requires x.role == Start && y.role == Start
    ensures IssuesOf(s + [x, y]).missingStart
  {
    DuplicateStepsWithoutStart(s);
    assert s + [x, y] == s + [x] + [y];
    FilterAppend(s + [x], [y], HasRole(Start));
    FilterAppend(s, [x], HasRole(Start));
    FilterOne(x, HasRole(Start));
    FilterOne(y, HasRole(Start));
  }

  /** Dropping the end from any nodes reports the end missing. */
  lemma NoEndMissing(s: seq<Node>)
    ensures IssuesOf(Filter(s, (n: Node) => n.role != End)).missingEnd
  {
    var t := Filter(s, (n: Node) => n.role != End);
    FilterMembers(s, (n: Node) => n.role != End);
    forall i | 0 <= i < |t| ensures !HasRole(End)(t[i]) {
      assert t[i] in t;
    }
    FilterNone(t, HasRole(End));
  }

  /** A start, a step without order, two steps `2.3` and an end: only `2.3` is reported. */
  lemma NestedDuplicate(s: seq<Node>)
    requires |s| == 5 && s[0].role == Start && s[1].role == Step && s[1].order.None?
    requires IsStep(s[2], [2, 3]) && IsStep(s[3], [2, 3]) && s[4].role == End
    ensures IssuesOf(s) == FeatureIssues(false, false, Some([OrderCount("2.3", 2)]))
  {
    var t := [s[0], s[2], s[3], s[4]];
    assert s == [s[0]] + [s[1]] + [s[2], s[3], s[4]];
    assert [s[0]] + [s[2], s[3], s[4]] == t;
    UncountedNodeIgnored([s[0]], s[1], [s[2], s[3], s[4]]);
    NestedParts(s[0], s[2], s[3], s[4]);
    Twice("2.3");
  }

  lemma NestedParts(a: Node, b: Node, c: Node, d: Node)
    requires a.role == Start && IsStep(b, [2, 3]) && IsStep(c, [2, 3]) && d.role == End
    ensures StepKeys([a, b, c, d]) == ["2.3", "2.3"]
    ensures CountRole([a, b, c, d], Start) == 1 && CountRole([a, b, c, d], End) == 1
  {
    NestedKeys(a, b, c, d);
    NestedRoles(a, b, c, d);
  }

  lemma NestedKeys(a: Node, b: Node, c: Node, d: Node)
    requires a.role == Start && IsStep(b, [2, 3]) && IsStep(c, [2, 3]) && d.role == End
    ensures StepKeys([a, b, c, d]) == ["2.3", "2.3"]
  {
    KeysFour(a, b, c, d);
    OrderStrings();
    StepKeysOne(a);
    StepKeysOne(b);
    StepKeysOne(c);
    StepKeysOne(d);
  }

  lemma NestedRoles(a: Node, b: Node, c: Node, d: Node)
    requires a.role == Start && b.role == Step && c.role == Step && d.role == End
    ensures CountRole([a, b, c, d], Start) == 1 && CountRole([a, b, c, d], End) == 1
  {
    CountFour(a, b, c, d, Start);
    CountFour(a, b, c, d, End);
    CountOne(a, Start);
    CountOne(b, Start);
    CountOne(c, Start);
    CountOne(d, Start);
    CountOne(a, End);
    CountOne(b, End);
    CountOne(c, End);
    CountOne(d, End);
  }

  /** The keys of four nodes, node by node. */
  lemma KeysFour(a: Node, b: Node, c: Node, d: Node)
    ensures StepKeys([a, b, c, d]) == StepKeys([a]) + StepKeys([b]) + StepKeys([c]) + StepKeys([d])
  {
    assert [a, b, c, d] == [a] + [b, c, d];
    StepKeysAppend([a], [b, c, d]);
    Three(b, c, d);
  }

  /** The count of a role in four nodes, node by node. */
  lemma CountFour(a: Node, b: Node, c: Node, d: Node, r: Role)
    ensures CountRole([a, b, c, d], r) ==
      |Filter([a], HasRole(r))| + |Filter([b], HasRole(r))| + |Filter([c], HasRole(r))| + |Filter([d], HasRole(r))|
  {
    assert [a, b, c, d] == [a] + [b, c, d];
    Three(b, c, d);
    FilterAppend([a], [b, c, d], HasRole(r));
  }

  lemma CountOne(n: Node, r: Role)
    ensures |Filter([n], HasRole(r))| == if n.role == r then 1 else 0
  {
    FilterOne(n, HasRole(r));
  }
}
