/**
  `updateGraphForFile` (src/indexer/workspaceIndexer.ts:122-142): apply the
  freshly parsed nodes of one file to the graph in place. The old nodes of
  the file leave every feature, features left empty are deleted, the new
  nodes are appended to their features (created on demand), every feature's
  issues are recomputed, and every feature is sorted.

  The effect is specified by functions over node-list maps: `Merged` is the
  content before the sort, `MergedKeys` the enumeration order of the
  features.
*/
module Indexer {
  import opened Wrappers
  import opened Types
  import opened Seqs
  import opened Graphs
  import opened Sort
  import opened Validator

  function NotFrom(file: string): Node -> bool {
    (n: Node) => n.file != file
  }

  function FromFile(file: string): Node -> bool {
    (n: Node) => n.file == file
  }

  function OfFeature(k: string): Node -> bool {
    (n: Node) => n.feature == k
  }

  /** The nodes of feature `k` that are not from `file`; none for a feature that is not there. */
  function Kept(c: map<string, seq<Node>>, file: string, k: string): seq<Node> {
    if k in c then Filter(c[k], NotFrom(file)) else []
  }

  /** The features after the nodes of `file` are removed and the features left empty deleted. */
  function RemoveFile(c: map<string, seq<Node>>, file: string): map<string, seq<Node>> {
    map k | k in c && Kept(c, file, k) != [] :: Kept(c, file, k)
  }

  /** Whether anything of feature `k` survives the removal. */
  function Survives(c: map<string, seq<Node>>, file: string): string -> bool {
    (k: string) => Kept(c, file, k) != []
  }

  /** The names that survive the removal, in their order. */
  function KeptKeys(keys: seq<string>, c: map<string, seq<Node>>, file: string): seq<string> {
    Filter(keys, Survives(c, file))
  }

  /** One new node appended to its feature, which is created empty when missing. */
  function AddNode(c: map<string, seq<Node>>, n: Node): map<string, seq<Node>> {
    c[n.feature := (if n.feature in c then c[n.feature] else []) + [n]]
  }

  /** The new nodes appended one by one, in their order. */
  function AddAll(c: map<string, seq<Node>>, ns: seq<Node>): map<string, seq<Node>> {
    if ns == [] then c else AddNode(AddAll(c, ns[..|ns| - 1]), ns[|ns| - 1])
  }

  /** The enumeration order after the appends: a feature created on demand comes last. */
  function AddKeys(keys: seq<string>, ns: seq<Node>): seq<string> {
    if ns == [] then keys
    else
      var ks := AddKeys(keys, ns[..|ns| - 1]);
      var k := ns[|ns| - 1].feature;
      if k in ks then ks else ks + [k]
  }

  /** The node lists after the removal and the appends, before the sort. */
  function Merged(c: map<string, seq<Node>>, file: string, ns: seq<Node>): map<string, seq<Node>> {
    AddAll(RemoveFile(c, file), ns)
  }

  function MergedKeys(keys: seq<string>, c: map<string, seq<Node>>, file: string, ns: seq<Node>): seq<string> {
    AddKeys(KeptKeys(keys, c, file), ns)
  }

  /** The issues of every feature, computed from its node list. */
  function IssuesAll(c: map<string, seq<Node>>): map<string, Option<FeatureIssues>> {
    map k | k in c :: Some(IssuesOf(c[k]))
  }

  // ---------------------------------------------------------------------
  // The update, in place

  /**
    `updateGraphForFile`: the same graph comes back, holding the merged node
    lists sorted, with the issues of the merged lists (computed before the
    sort, as the source does) and the features in their enumeration order.
  */
  method UpdateGraphForFile(graph: Graph, filePath: string, nodes: seq<Node>) returns (r: Graph)
    requires graph.Valid()
    modifies graph, graph.Repr()
    ensures r == graph && graph.Valid()
    ensures graph.Contents() == SortAll(Merged(old(graph.Contents()), filePath, nodes))
    ensures graph.Issues() == IssuesAll(Merged(old(graph.Contents()), filePath, nodes))
    ensures graph.keys == MergedKeys(old(graph.keys), old(graph.Contents()), filePath, nodes)
  {
    RemoveFileNodes(graph, filePath);
    AddNodes(graph, nodes);
    RecomputeIssues(graph);
    r := SortGraph(graph);
  }

  /** The first loop: each feature loses the nodes of `file`, and is deleted when none are left. */
  method RemoveFileNodes(graph: Graph, file: string)
    requires graph.Valid()
    modifies graph, graph.Repr()
    ensures graph.Valid()
    ensures graph.Contents() == RemoveFile(old(graph.Contents()), file)
    ensures graph.keys == KeptKeys(old(graph.keys), old(graph.Contents()), file)
    ensures graph.Repr() <= old(graph.Repr())
  {
    var ks := graph.keys;
    ghost var c0 := graph.Contents();
    RemovedStart(graph, file);
    for i := 0 to |ks|
      invariant RemovedUpTo(graph, file, ks, c0, i)
      invariant graph.Repr() <= old(graph.Repr())
    {
      RemoveAt(graph, file, ks, c0, i);
    }
    RemovedAll(graph, file, ks, c0);
  }

  /**
    While the removal loop runs: the names visited so far have been dropped
    from the enumeration when nothing of their feature survives, and the
    features under them hold what survives; the others are untouched.
  */
  ghost predicate RemovedUpTo(graph: Graph, file: string, ks: seq<string>, c0: map<string, seq<Node>>, i: nat)
    reads graph, graph.Repr()
  {
    graph.Valid() && RemovedPrefix(graph.Contents(), graph.keys, file, ks, c0, i)
  }

  /** `RemovedUpTo`, on the node lists `m` and the enumeration order `keys`. */
  ghost predicate RemovedPrefix(m: map<string, seq<Node>>, keys: seq<string>, file: string, ks: seq<string>,
                          c0: map<string, seq<Node>>, i: nat)
  {
    && i <= |ks| && Distinct(ks) && (forall k :: k in c0 <==> k in ks)
    && keys == KeptKeys(ks[..i], c0, file) + ks[i..] && Distinct(keys)
    && (forall k :: k in m <==> k in keys)
    && (forall j :: 0 <= j < |ks| && ks[j] in m ==> m[ks[j]] == if j < i then Kept(c0, file, ks[j]) else c0[ks[j]])
  }

  lemma RemovedStart(graph: Graph, file: string)
    requires graph.Valid()
    ensures RemovedUpTo(graph, file, graph.keys, graph.Contents(), 0)
  {
    var ks := graph.keys;
    assert ks[..0] == [] && ks[0..] == ks;
  }

  /** One turn of the removal loop, on the feature named `ks[i]`. */
  method RemoveAt(graph: Graph, file: string, ks: seq<string>, ghost c0: map<string, seq<Node>>, i: nat)
    requires i < |ks| && RemovedUpTo(graph, file, ks, c0, i)
    modifies graph, graph.Repr()
    ensures RemovedUpTo(graph, file, ks, c0, i + 1)
    ensures graph.Repr() <= old(graph.Repr())
  {
    var k := ks[i];
    ghost var m0, keys0 := graph.Contents(), graph.keys;
    RemoveAtFeature(graph, file, ks, c0, i);
    var fg := graph.features[k];
    var kept := Filter(fg.nodes, NotFrom(file));
    assert kept == Kept(c0, file, k);
    graph.SetNodes(k, kept);
    if |kept| == 0 {
      graph.Delete(k);
      MinusUpdated(m0, k, kept);
    }
    RemoveStep(m0, keys0, graph.Contents(), graph.keys, file, ks, c0, i);
  }

  lemma MinusUpdated(m: map<string, seq<Node>>, k: string, v: seq<Node>)
    ensures m[k := v] - {k} == m - {k}
  {
    assert (m[k := v] - {k}).Keys == (m - {k}).Keys;
  }

  /** The feature a turn of the removal loop visits is still there, with its original nodes. */
  lemma RemoveAtFeature(graph: Graph, file: string, ks: seq<string>, c0: map<string, seq<Node>>, i: nat)
    requires i < |ks| && RemovedUpTo(graph, file, ks, c0, i)
    ensures ks[i] in graph.features && ks[i] in c0 && graph.features[ks[i]].nodes == c0[ks[i]]
  {
    var keys := graph.keys;
    assert keys[|KeptKeys(ks[..i], c0, file)|] == ks[i];
    assert ks[i] in graph.Contents();
  }

  /** The removal loop's invariant survives one turn. */
  lemma RemoveStep(m0: map<string, seq<Node>>, keys0: seq<string>, m1: map<string, seq<Node>>, keys1: seq<string>,
                   file: string, ks: seq<string>, c0: map<string, seq<Node>>, i: nat)
    requires RemovedPrefix(m0, keys0, file, ks, c0, i) && i < |ks| && ks[i] in m0
    requires m1 == if Kept(c0, file, ks[i]) != [] then m0[ks[i] := Kept(c0, file, ks[i])] else m0 - {ks[i]}
    requires keys1 == if Kept(c0, file, ks[i]) != [] then keys0 else Without(keys0, ks[i])
    ensures RemovedPrefix(m1, keys1, file, ks, c0, i + 1)
  {
    var k := ks[i];
    RemoveStepKeys(ks, c0, file, i);
    assert ks[..i + 1][..i] == ks[..i];
    if Kept(c0, file, k) == [] {
      WithoutFacts(keys0, k);
    }
    RemoveStepValues(m0, m1, file, ks, c0, i);
  }

  /** One turn leaves the features under the other names as they were. */
  lemma RemoveStepValues(m0: map<string, seq<Node>>, m1: map<string, seq<Node>>,
                         file: string, ks: seq<string>, c0: map<string, seq<Node>>, i: nat)
    requires i < |ks| && Distinct(ks) && (forall k :: k in c0 <==> k in ks)
    requires forall j :: 0 <= j < |ks| && ks[j] in m0 ==> m0[ks[j]] == if j < i then Kept(c0, file, ks[j]) else c0[ks[j]]
    requires m1 == if Kept(c0, file, ks[i]) != [] then m0[ks[i] := Kept(c0, file, ks[i])] else m0 - {ks[i]}
    ensures forall j :: 0 <= j < |ks| && ks[j] in m1 ==> m1[ks[j]] == if j < i + 1 then Kept(c0, file, ks[j]) else c0[ks[j]]
  {
    forall j | 0 <= j < |ks| && ks[j] in m1
      ensures m1[ks[j]] == if j < i + 1 then Kept(c0, file, ks[j]) else c0[ks[j]]
    {
      if j != i {
        assert ks[j] != ks[i];
      }
    }
  }

  /** When the removal loop is done, the graph holds what survives of every feature. */
  lemma RemovedAll(graph: Graph, file: string, ks: seq<string>, c0: map<string, seq<Node>>)
    requires RemovedUpTo(graph, file, ks, c0, |ks|)
    ensures graph.Contents() == RemoveFile(c0, file)
    ensures graph.keys == KeptKeys(ks, c0, file)
  {
    RemovedPrefixAll(graph.Contents(), graph.keys, file, ks, c0);
  }

  lemma RemovedPrefixAll(m: map<string, seq<Node>>, keys: seq<string>, file: string, ks: seq<string>, c0: map<string, seq<Node>>)
    requires RemovedPrefix(m, keys, file, ks, c0, |ks|)
    ensures m == RemoveFile(c0, file)
    ensures keys == KeptKeys(ks, c0, file)
  {
    assert ks[..|ks|] == ks && ks[|ks|..] == [];
    assert forall k :: k in m <==> k in c0 && Kept(c0, file, k) != [] by {
      FilterMembers(ks, Survives(c0, file));
    }
    forall k | k in m ensures m[k] == Kept(c0, file, k) {
      var j :| 0 <= j < |ks| && ks[j] == k;
    }
  }

  lemma RemoveStepKeys(ks: seq<string>, c0: map<string, seq<Node>>, file: string, i: nat)
    requires i < |ks| && Distinct(ks)
    ensures KeptKeys(ks[..i + 1], c0, file) + ks[i + 1..] ==
              if Kept(c0, file, ks[i]) != [] then KeptKeys(ks[..i], c0, file) + ks[i..]
              else Without(KeptKeys(ks[..i], c0, file) + ks[i..], ks[i])
  {
    var k := ks[i];
    var before := KeptKeys(ks[..i], c0, file);
    var rest := ks[i + 1..];
    assert ks[i..] == [k] + rest;
    DistinctSplit(ks, i);
    assert k !in before by {
      FilterMembers(ks[..i], Survives(c0, file));
    }
    KeptKeysStep(ks, c0, file, i);
    if Kept(c0, file, k) == [] {
      WithoutSplit(before, k, rest);
    }
  }

  lemma DistinctSplit(ks: seq<string>, i: nat)
    requires Distinct(ks) && i < |ks|
    ensures ks[i] !in ks[..i] && ks[i] !in ks[i + 1..]
  {
  }

  lemma KeptKeysStep(ks: seq<string>, c0: map<string, seq<Node>>, file: string, i: nat)
    requires i < |ks|
    ensures KeptKeys(ks[..i + 1], c0, file) ==
              KeptKeys(ks[..i], c0, file) + (if Kept(c0, file, ks[i]) != [] then [ks[i]] else [])
  {
    assert ks[..i + 1][..i] == ks[..i];
  }

  lemma WithoutSplit(a: seq<string>, k: string, b: seq<string>)
    requires k !in a && k !in b
    ensures Without(a + ([k] + b), k) == a + b
  {
    calc {
      Without(a + ([k] + b), k);
      { FilterAppend(a, [k] + b, NotKey(k)); }
      Without(a, k) + Without([k] + b, k);
      { FilterAppend([k], b, NotKey(k)); }
      Without(a, k) + (Without([k], k) + Without(b, k));
      { assert [k][..0] == []; }
      Without(a, k) + Without(b, k);
      { WithoutAbsent(a, k); WithoutAbsent(b, k); }
      a + b;
    }
  }

  /** The second loop: each new node is appended to its feature, which is created when missing. */
  method AddNodes(graph: Graph, ns: seq<Node>)
    requires graph.Valid()
    modifies graph, graph.Repr()
    ensures graph.Valid()
    ensures graph.Contents() == AddAll(old(graph.Contents()), ns)
    ensures graph.keys == AddKeys(old(graph.keys), ns)
    ensures fresh(graph.Repr() - old(graph.Repr()))
  {
    ghost var c1 := graph.Contents();
    ghost var k1 := graph.keys;
    for i := 0 to |ns|
      invariant graph.Valid()
      invariant graph.Contents() == AddAll(c1, ns[..i])
      invariant graph.keys == AddKeys(k1, ns[..i])
      invariant fresh(graph.Repr() - old(graph.Repr()))
    {
      assert ns[..i + 1][..i] == ns[..i];
      AppendNode(graph, ns[i]);
    }
    assert ns[..|ns|] == ns;
  }

  /** One turn of the second loop. */
  method AppendNode(graph: Graph, n: Node)
    requires graph.Valid()
    modifies graph, graph.Repr()
    ensures graph.Valid()
    ensures graph.Contents() == AddNode(old(graph.Contents()), n)
    ensures graph.keys == if n.feature in old(graph.keys) then old(graph.keys) else old(graph.keys) + [n.feature]
    ensures fresh(graph.Repr() - old(graph.Repr()))
  {
    ghost var c0 := graph.Contents();
    ghost var base := if n.feature in c0 then c0[n.feature] else [];
    assert n.feature in c0 <==> n.feature in graph.features;
    EnsureFeature(graph, n.feature);
    ghost var c1 := graph.Contents();
    assert c1 == if n.feature in c0 then c0 else c0[n.feature := []];
    var fg := graph.features[n.feature];
    assert fg.nodes == c1[n.feature] == base;
    var v := fg.nodes + [n];
    if n.feature !in c0 {
      UpdateTwice(c0, n.feature, [], v);
    }
    assert c1[n.feature := v] == c0[n.feature := base + [n]] == AddNode(c0, n);
    graph.SetNodes(n.feature, v);
  }

  lemma UpdateTwice(m: map<string, seq<Node>>, k: string, u: seq<Node>, v: seq<Node>)
    ensures m[k := u][k := v] == m[k := v]
  {
  }

  /** `if (!graph.features[k]) graph.features[k] = { feature: k, nodes: [] }`. */
  method EnsureFeature(graph: Graph, k: string)
    requires graph.Valid()
    modifies graph
    ensures graph.Valid() && k in graph.features
    ensures graph.Contents() == if k in old(graph.features) then old(graph.Contents()) else old(graph.Contents())[k := []]
    ensures graph.keys == if k in old(graph.keys) then old(graph.keys) else old(graph.keys) + [k]
    ensures fresh(graph.Repr() - old(graph.Repr()))
  {
    if k !in graph.features {
      var fg := new FeatureGraph(k, []);
      graph.Put(fg);
    }
  }

  /** The third loop: every feature's issues recomputed from its nodes. */
  method RecomputeIssues(graph: Graph)
    requires graph.Valid()
    modifies graph.Repr()
    ensures graph.Valid()
    ensures graph.Contents() == old(graph.Contents())
    ensures graph.Issues() == IssuesAll(graph.Contents())
  {
    ghost var c0 := graph.Contents();
    var ks := graph.keys;
    for i := 0 to |ks|
      invariant graph.Valid() && graph.keys == ks
      invariant IssuesUpTo(graph, i, c0)
    {
      IssuesAt(graph, i, c0);
    }
    IssuesDone(graph, c0);
  }

  /** The nodes are those of `c0`, and the features under the first `i` names have their issues computed. */
  ghost predicate IssuesUpTo(graph: Graph, i: nat, c0: map<string, seq<Node>>)
    reads graph, graph.Repr()
  {
    && i <= |graph.keys|
    && graph.Contents() == c0
    && IssuesPrefix(graph.Issues(), graph.keys, i, c0)
  }

  /** The issues `m` holds under the first `i` names are those computed from `c0`. */
  predicate IssuesPrefix(m: map<string, Option<FeatureIssues>>, keys: seq<string>, i: nat, c0: map<string, seq<Node>>) {
    i <= |keys| && forall j :: 0 <= j < i ==> keys[j] in m && keys[j] in c0 && m[keys[j]] == Some(IssuesOf(c0[keys[j]]))
  }

  /** One turn of the third loop. */
  method IssuesAt(graph: Graph, i: nat, ghost c0: map<string, seq<Node>>)
    requires graph.Valid() && i < |graph.keys| && IssuesUpTo(graph, i, c0)
    modifies graph.Repr()
    ensures graph.Valid() && IssuesUpTo(graph, i + 1, c0)
  {
    var k := graph.keys[i];
    EntryAt(graph, k);
    var fg := graph.features[k];
    var issues := ComputeFeatureIssues(fg);
    assert issues == IssuesOf(c0[k]);
    ghost var m0 := graph.Issues();
    graph.SetIssues(k, Some(issues));
    PrefixExtends(m0, graph.keys, i, c0, k, Some(issues));
  }

  lemma PrefixExtends(m: map<string, Option<FeatureIssues>>, keys: seq<string>, i: nat, c0: map<string, seq<Node>>,
                      k: string, v: Option<FeatureIssues>)
    requires IssuesPrefix(m, keys, i, c0) && i < |keys| && Distinct(keys)
    requires k == keys[i] && k in c0 && v == Some(IssuesOf(c0[k]))
    ensures IssuesPrefix(m[k := v], keys, i + 1, c0)
  {
    forall j | 0 <= j < i ensures keys[j] != keys[i] {
    }
  }

  lemma IssuesDone(graph: Graph, c0: map<string, seq<Node>>)
    requires graph.Valid() && IssuesUpTo(graph, |graph.keys|, c0)
    ensures graph.Contents() == c0 && graph.Issues() == IssuesAll(c0)
  {
    assert graph.Issues().Keys == graph.features.Keys == c0.Keys;
    PrefixAll(graph.Issues(), graph.keys, c0);
  }

  /** Issues computed under every name, when the names are exactly the features, are all the issues. */
  lemma PrefixAll(m: map<string, Option<FeatureIssues>>, keys: seq<string>, c0: map<string, seq<Node>>)
    requires IssuesPrefix(m, keys, |keys|, c0) && m.Keys == c0.Keys
    requires forall k :: k in c0 ==> k in keys
    ensures m == IssuesAll(c0)
  {
    forall k | k in m ensures m[k] == Some(IssuesOf(c0[k])) {
      var j :| 0 <= j < |keys| && keys[j] == k;
    }
    assert m.Keys == IssuesAll(c0).Keys;
  }
}
