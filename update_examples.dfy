/**
  The repository's indexer test (src/test/indexer.test.ts): a flow with a
  start and an end in one file is updated with two steps `1` and an end
  from the same file. The start leaves, so the flow lacks a start, has one
  end, and uses order `1` twice.
*/
module UpdateExamples {
  import opened Wrappers
  import opened Types
  import opened Seqs
  import opened Indexer
  import opened MergeFacts
  import opened ValidatorExamples

  lemma RecomputedAfterUpdate(file: string, old0: Node, old1: Node, ns: seq<Node>)
    requires old0.feature == "F" && old0.role == Start && old0.file == file
    requires old1.feature == "F" && old1.role == End && old1.file == file
    requires |ns| == 3 && AllFrom(ns, file)
    requires forall i :: 0 <= i < 3 ==> ns[i].feature == "F"
    requires IsStep(ns[0], [1]) && IsStep(ns[1], [1]) && ns[2].role == End
    ensures "F" in IssuesAll(Merged(map["F" := [old0, old1]], file, ns))
    ensures IssuesAll(Merged(map["F" := [old0, old1]], file, ns))["F"]
      == Some(FeatureIssues(true, false, Some([OrderCount("1", 2)])))
  {
    var c := map["F" := [old0, old1]];
    MergedAt(c, file, ns, "F");
    FilterNone([old0, old1], NotFrom(file));
    FilterAll(ns, OfFeature("F"));
    assert Merged(c, file, ns)["F"] == ns;
    DuplicateStepsWithoutStart(ns);
  }
}
