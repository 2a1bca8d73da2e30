/**
  What `updateGraphForFile` (src/indexer/workspaceIndexer.ts:122-142) promises,
  proved about the functions that specify it: which nodes each feature holds
  afterwards, that the graph stays well filed, how the issues relate to the
  final lists, and that applying the same update twice changes nothing more.
*/
module MergeFacts {
  import opened Wrappers
  import opened Types
  import opened Seqs
  import opened Sort
  import opened Validator
  import opened Indexer

  /** The node list under `k`, or none when `k` is not a feature. */
  function At(c: map<string, seq<Node>>, k: string): seq<Node> {
    if k in c then c[k] else []
  }

  /** The new nodes of feature `k`, in their order. */
  function NewOf(ns: seq<Node>, k: string): seq<Node> {
    Filter(ns, OfFeature(k))
  }

  /** Every node sits under its own feature name. */
  predicate WellFiled(c: map<string, seq<Node>>) {
    forall k, i :: k in c && 0 <= i < |c[k]| ==> c[k][i].feature == k
  }

  /** No feature is left with an empty list. */
  predicate NonEmpty(c: map<string, seq<Node>>) {
    forall k :: k in c ==> c[k] != []
  }

  /** Every new node comes from `file`. */
  predicate AllFrom(ns: seq<Node>, file: string) {
    forall i :: 0 <= i < |ns| ==> ns[i].file == file
  }

  // ---------------------------------------------------------------------
  // Each feature, pointwise

  /** After the appends, feature `k` holds its old list followed by the new nodes of `k`. */
  lemma {:induction false} AddAllAt(c: map<string, seq<Node>>, ns: seq<Node>, k: string)
    ensures k in AddAll(c, ns) <==> k in c || NewOf(ns, k) != []
    ensures At(AddAll(c, ns), k) == At(c, k) + NewOf(ns, k)
    decreases |ns|
  {
    if ns == [] {
    } else {
      var init := ns[..|ns| - 1];
      AddAllAt(c, init, k);
      assert NewOf(ns, k) == NewOf(init, k) + (if ns[|ns| - 1].feature == k then [ns[|ns| - 1]] else []);
    }
  }

  /** After the removal, feature `k` holds what is kept of it, and is there exactly when that is not empty. */
  lemma RemoveFileAt(c: map<string, seq<Node>>, file: string, k: string)
    ensures k in RemoveFile(c, file) <==> Kept(c, file, k) != []
    ensures At(RemoveFile(c, file), k) == Kept(c, file, k)
  {
  }

  /**
    Before the sort, feature `k` holds its old nodes from other files followed
    by the new nodes of `k`, and it is a feature exactly when that is not empty.
  */
  lemma MergedAt(c: map<string, seq<Node>>, file: string, ns: seq<Node>, k: string)
    ensures k in Merged(c, file, ns) <==> Kept(c, file, k) + NewOf(ns, k) != []
    ensures At(Merged(c, file, ns), k) == Kept(c, file, k) + NewOf(ns, k)
  {
    RemoveFileAt(c, file, k);
    AddAllAt(RemoveFile(c, file), ns, k);
  }

  /** The final list of feature `k`: the sorted merge. */
  lemma FinalAt(c: map<string, seq<Node>>, file: string, ns: seq<Node>, k: string)
    ensures k in SortAll(Merged(c, file, ns)) <==> Kept(c, file, k) + NewOf(ns, k) != []
    ensures At(SortAll(Merged(c, file, ns)), k) == InsertionSort(Kept(c, file, k) + NewOf(ns, k))
  {
    MergedAt(c, file, ns, k);
  }

  // ---------------------------------------------------------------------
  // The nodes of the file are replaced

  /** What is kept of a feature holds no node of `file`. */
  lemma KeptFacts(c: map<string, seq<Node>>, file: string, k: string)
    ensures Filter(Kept(c, file, k), FromFile(file)) == []
    ensures Filter(Kept(c, file, k), NotFrom(file)) == Kept(c, file, k)
  {
    var a := Kept(c, file, k);
    FilterSatisfies(At(c, k), NotFrom(file));
    assert forall i :: 0 <= i < |a| ==> a[i].file != file;
    FilterNone(a, FromFile(file));
    FilterAll(a, NotFrom(file));
  }

  /** The new nodes of a feature are all of `file` when the new nodes are. */
  lemma NewFacts(ns: seq<Node>, file: string, k: string)
    requires AllFrom(ns, file)
    ensures Filter(NewOf(ns, k), FromFile(file)) == NewOf(ns, k)
    ensures Filter(NewOf(ns, k), NotFrom(file)) == []
  {
    var b := NewOf(ns, k);
    FilterKeeps(ns, OfFeature(k), FromFile(file));
    FilterAll(b, FromFile(file));
    FilterNone(b, NotFrom(file));
  }

  /** Filtering the sorted merge of a feature is, up to order, filtering its two parts. */
  lemma FilterFinal(a: seq<Node>, b: seq<Node>, p: Node -> bool)
    ensures multiset(Filter(InsertionSort(a + b), p)) == multiset(Filter(a, p) + Filter(b, p))
  {
    InsertionSortPermutation(a + b);
    FilterPerm(InsertionSort(a + b), a + b, p);
    FilterAppend(a, b, p);
  }

  /**
    After the update, the nodes of feature `k` that come from `file` are
    exactly the new nodes of `k` (as a multiset: the sort may reorder them),
    and those from any other file are exactly the ones it held before.
  */
  lemma FileNodesReplaced(c: map<string, seq<Node>>, file: string, ns: seq<Node>, k: string)
    requires AllFrom(ns, file)
    ensures multiset(Filter(At(SortAll(Merged(c, file, ns)), k), FromFile(file))) == multiset(NewOf(ns, k))
    ensures multiset(Filter(At(SortAll(Merged(c, file, ns)), k), NotFrom(file))) == multiset(Filter(At(c, k), NotFrom(file)))
  {
    FileNodesNew(c, file, ns, k);
    FileNodesKept(c, file, ns, k);
  }

  lemma FileNodesNew(c: map<string, seq<Node>>, file: string, ns: seq<Node>, k: string)
    requires AllFrom(ns, file)
    ensures multiset(Filter(At(SortAll(Merged(c, file, ns)), k), FromFile(file))) == multiset(NewOf(ns, k))
  {
    var a := Kept(c, file, k);
    var b := NewOf(ns, k);
    FinalAt(c, file, ns, k);
    KeptFacts(c, file, k);
    NewFacts(ns, file, k);
    FilterFinal(a, b, FromFile(file));
    assert Filter(a, FromFile(file)) + Filter(b, FromFile(file)) == b;
  }

  lemma FileNodesKept(c: map<string, seq<Node>>, file: string, ns: seq<Node>, k: string)
    requires AllFrom(ns, file)
    ensures multiset(Filter(At(SortAll(Merged(c, file, ns)), k), NotFrom(file))) == multiset(Filter(At(c, k), NotFrom(file)))
  {
    var a := Kept(c, file, k);
    var b := NewOf(ns, k);
    FinalAt(c, file, ns, k);
    KeptFacts(c, file, k);
    NewFacts(ns, file, k);
    FilterFinal(a, b, NotFrom(file));
    assert Filter(a, NotFrom(file)) + Filter(b, NotFrom(file)) == a;
    assert a == Filter(At(c, k), NotFrom(file));
  }


  // ---------------------------------------------------------------------
  // The shape of the graph is kept

  /** No feature is left empty, and a well-filed graph stays well filed. */
  lemma MergedWellFormed(c: map<string, seq<Node>>, file: string, ns: seq<Node>)
    requires WellFiled(c)
    ensures NonEmpty(SortAll(Merged(c, file, ns)))
    ensures WellFiled(SortAll(Merged(c, file, ns)))
  {
    var f: map<string, seq<Node>> := SortAll(Merged(c, file, ns));
    forall k | k in f ensures f[k] != [] && forall i :: 0 <= i < |f[k]| ==> f[k][i].feature == k {
      FinalWellFiled(c, file, ns, k);
    }
  }

  function InFeature(k: string): Node -> bool {
    (n: Node) => n.feature == k
  }

  /** A property both parts have, every element of their sorted concatenation has. */
  lemma SortedKeeps(a: seq<Node>, b: seq<Node>, q: Node -> bool)
    requires forall i :: 0 <= i < |a| ==> q(a[i])
    requires forall i :: 0 <= i < |b| ==> q(b[i])
    ensures forall i :: 0 <= i < |InsertionSort(a + b)| ==> q(InsertionSort(a + b)[i])
  {
    assert forall i :: 0 <= i < |a + b| ==> q((a + b)[i]) by {
      forall i | 0 <= i < |a + b| ensures q((a + b)[i]) {
        if i >= |a| {
          assert (a + b)[i] == b[i - |a|];
        }
      }
    }
    InsertionSortPermutation(a + b);
    PermutationKeeps(a + b, InsertionSort(a + b), q);
  }

  lemma FinalWellFiled(c: map<string, seq<Node>>, file: string, ns: seq<Node>, k: string)
    requires WellFiled(c)
    requires k in SortAll(Merged(c, file, ns))
    ensures SortAll(Merged(c, file, ns))[k] != []
    ensures forall i :: 0 <= i < |SortAll(Merged(c, file, ns))[k]| ==> SortAll(Merged(c, file, ns))[k][i].feature == k
  {
    var a := Kept(c, file, k);
    var b := NewOf(ns, k);
    FinalAt(c, file, ns, k);
    assert forall i :: 0 <= i < |At(c, k)| ==> InFeature(k)(At(c, k)[i]);
    FilterKeeps(At(c, k), NotFrom(file), InFeature(k));
    FilterSatisfies(ns, OfFeature(k));
    SortedKeeps(a, b, InFeature(k));
  }

  // ---------------------------------------------------------------------
  // The issues

  /**
    Two issue records that agree on both flags, on whether orders repeat,
    and on which orders repeat how often; only the listing order of the
    repeated orders may differ.
  */
  ghost predicate SameIssues(x: FeatureIssues, y: FeatureIssues) {
    && x.missingStart == y.missingStart
    && x.missingEnd == y.missingEnd
    && x.duplicateOrders.None? == y.duplicateOrders.None?
    && (forall e :: e in Entries(x) <==> e in Entries(y))
  }

  /**
    The issues are computed before the sort (workspaceIndexer.ts:138-141), so
    each feature's issues are those of its final, sorted list up to the
    order in which repeated orders are listed.
  */
  lemma IssuesMatchFinal(c: map<string, seq<Node>>, file: string, ns: seq<Node>)
    ensures IssuesAll(Merged(c, file, ns)).Keys == SortAll(Merged(c, file, ns)).Keys
    ensures forall k :: k in Merged(c, file, ns) ==>
      SameIssues(IssuesAll(Merged(c, file, ns))[k].value, IssuesOf(SortAll(Merged(c, file, ns))[k]))
  {
    var m := Merged(c, file, ns);
    forall k | k in m ensures SameIssues(IssuesOf(m[k]), IssuesOf(SortAll(m)[k])) {
      InsertionSortPermutation(m[k]);
      IssuesUnderPermutation(m[k], InsertionSort(m[k]));
    }
  }

  // ---------------------------------------------------------------------
  // Applying the same update twice

  /** Two maps that agree on every name are equal. */
  lemma MapsEqualAt(m1: map<string, seq<Node>>, m2: map<string, seq<Node>>)
    requires forall k :: (k in m1 <==> k in m2) && At(m1, k) == At(m2, k)
    ensures m1 == m2
  {
    assert m1.Keys == m2.Keys;
    forall k | k in m1 ensures m1[k] == m2[k] {
      assert At(m1, k) == At(m2, k);
    }
  }

  /** What survives a second removal of `file` is the sorted list of what survived the first. */
  lemma KeptAgain(c: map<string, seq<Node>>, file: string, ns: seq<Node>, k: string)
    requires AllFrom(ns, file)
    ensures Kept(SortAll(Merged(c, file, ns)), file, k) == InsertionSort(Kept(c, file, k))
  {
    var a := Kept(c, file, k);
    var b := NewOf(ns, k);
    var f := SortAll(Merged(c, file, ns));
    FinalAt(c, file, ns, k);
    if k in f {
      SortAppend(a, b);
      FilterKeeps(ns, OfFeature(k), FromFile(file));
      assert forall x :: x in b ==> !NotFrom(file)(x);
      FilterInsertAll(InsertionSort(a), b, NotFrom(file));
      FilterSatisfies(At(c, k), NotFrom(file));
      InsertionSortPermutation(a);
      PermutationKeeps(a, InsertionSort(a), NotFrom(file));
      FilterAll(InsertionSort(a), NotFrom(file));
    } else {
      assert a == [];
    }
  }

  /** Sorting a list with some nodes appended gives the same as sorting its sorted form with them appended. */
  lemma SortAfterSort(a: seq<Node>, b: seq<Node>)
    ensures InsertionSort(InsertionSort(a) + b) == InsertionSort(a + b)
  {
    SortAppend(InsertionSort(a), b);
    InsertionSortIdempotent(a);
    SortAppend(a, b);
  }

  /**
    Applying `updateGraphForFile` twice with the same file and the same new
    nodes (all from that file) leaves the same node lists as applying it once.
  */
  lemma UpdateIdempotent(c: map<string, seq<Node>>, file: string, ns: seq<Node>)
    requires AllFrom(ns, file)
    ensures SortAll(Merged(SortAll(Merged(c, file, ns)), file, ns)) == SortAll(Merged(c, file, ns))
  {
    var f := SortAll(Merged(c, file, ns));
    var g := SortAll(Merged(f, file, ns));
    forall k ensures (k in g <==> k in f) && At(g, k) == At(f, k) {
      FinalAt(c, file, ns, k);
      FinalAt(f, file, ns, k);
      KeptAgain(c, file, ns, k);
      SortAfterSort(Kept(c, file, k), NewOf(ns, k));
    }
    MapsEqualAt(g, f);
  }

  /** The appends only add names at the end, each one not there before. */
  lemma {:induction false} AddKeysExtends(ks: seq<string>, ns: seq<Node>)
    ensures |AddKeys(ks, ns)| >= |ks| && AddKeys(ks, ns)[..|ks|] == ks
    ensures forall i :: |ks| <= i < |AddKeys(ks, ns)| ==> AddKeys(ks, ns)[i] !in ks
    decreases |ns|
  {
    if ns != [] {
      AddKeysExtends(ks, ns[..|ns| - 1]);
    }
  }

  /** A feature survives the second removal exactly when it survived the first. */
  lemma SurvivesAgain(c: map<string, seq<Node>>, file: string, ns: seq<Node>, k: string)
    requires AllFrom(ns, file)
    ensures Survives(SortAll(Merged(c, file, ns)), file)(k) == Survives(c, file)(k)
  {
    KeptAgain(c, file, ns, k);
  }

  /**
    The second application also leaves the features in the same enumeration
    order, given that the names listed are those of the graph.
  */
  lemma UpdateKeysIdempotent(keys: seq<string>, c: map<string, seq<Node>>, file: string, ns: seq<Node>)
    requires AllFrom(ns, file)
    requires forall k :: k in keys <==> k in c
    ensures MergedKeys(MergedKeys(keys, c, file, ns), SortAll(Merged(c, file, ns)), file, ns) == MergedKeys(keys, c, file, ns)
  {
    KeptKeysAgain(keys, c, file, ns);
  }

  /** The names kept by the second removal are the names kept by the first. */
  lemma KeptKeysAgain(keys: seq<string>, c: map<string, seq<Node>>, file: string, ns: seq<Node>)
    requires AllFrom(ns, file)
    requires forall k :: k in keys <==> k in c
    ensures KeptKeys(MergedKeys(keys, c, file, ns), SortAll(Merged(c, file, ns)), file) == KeptKeys(keys, c, file)
  {
    var p := Survives(SortAll(Merged(c, file, ns)), file);
    var kk := KeptKeys(keys, c, file);
    var k1 := AddKeys(kk, ns);
    KeptStillKept(keys, c, file, ns, p, kk);
    AddedNotKept(keys, c, file, ns, p, kk, k1);
    FilterKeepsPrefix(kk, k1, p);
  }

  /** A name the first removal keeps, the second keeps too. */
  lemma KeptStillKept(keys: seq<string>, c: map<string, seq<Node>>, file: string, ns: seq<Node>,
                      p: string -> bool, kk: seq<string>)
    requires AllFrom(ns, file)
    requires p == Survives(SortAll(Merged(c, file, ns)), file) && kk == KeptKeys(keys, c, file)
    ensures forall x :: x in kk ==> p(x)
  {
    FilterMembers(keys, Survives(c, file));
    forall x | x in kk ensures p(x) {
      SurvivesAgain(c, file, ns, x);
    }
  }

  /** The appends extend the kept names, and a name they add does not survive the second removal. */
  lemma AddedNotKept(keys: seq<string>, c: map<string, seq<Node>>, file: string, ns: seq<Node>,
                     p: string -> bool, kk: seq<string>, k1: seq<string>)
    requires AllFrom(ns, file)
    requires forall k :: k in keys <==> k in c
    requires p == Survives(SortAll(Merged(c, file, ns)), file)
    requires kk == KeptKeys(keys, c, file) && k1 == AddKeys(kk, ns)
    ensures |kk| <= |k1| && k1[..|kk|] == kk
    ensures forall i :: |kk| <= i < |k1| ==> !p(k1[i])
  {
    AddKeysExtends(kk, ns);
    FilterMembers(keys, Survives(c, file));
    forall i | |kk| <= i < |k1| ensures !p(k1[i]) {
      SurvivesAgain(c, file, ns, k1[i]);
    }
  }

  /**
    The second application computes, for every feature, the same issues as
    the first, up to the order in which repeated orders are listed.
  */
  lemma UpdateIssuesIdempotent(c: map<string, seq<Node>>, file: string, ns: seq<Node>)
    requires AllFrom(ns, file)
    ensures IssuesAll(Merged(SortAll(Merged(c, file, ns)), file, ns)).Keys == IssuesAll(Merged(c, file, ns)).Keys
    ensures forall k :: k in Merged(c, file, ns) ==>
      SameIssues(IssuesAll(Merged(SortAll(Merged(c, file, ns)), file, ns))[k].value, IssuesAll(Merged(c, file, ns))[k].value)
  {
    var m := Merged(c, file, ns);
    var m2 := Merged(SortAll(m), file, ns);
    forall k ensures (k in m2 <==> k in m) && (k in m ==> multiset(m2[k]) == multiset(m[k])) {
      MergedAgainAt(c, file, ns, k);
    }
    assert m2.Keys == m.Keys;
    forall k | k in m ensures SameIssues(IssuesOf(m2[k]), IssuesOf(m[k])) {
      IssuesUnderPermutation(m2[k], m[k]);
    }
  }

  /** Under each name, the second application holds the nodes of the first, in some order. */
  lemma MergedAgainAt(c: map<string, seq<Node>>, file: string, ns: seq<Node>, k: string)
    requires AllFrom(ns, file)
    ensures var m := Merged(c, file, ns); var m2 := Merged(SortAll(m), file, ns);
      (k in m2 <==> k in m) && (k in m ==> multiset(m2[k]) == multiset(m[k]))
  {
    var m := Merged(c, file, ns);
    MergedAt(c, file, ns, k);
    MergedAt(SortAll(m), file, ns, k);
    KeptAgain(c, file, ns, k);
    InsertionSortPermutation(Kept(c, file, k));
  }
}
