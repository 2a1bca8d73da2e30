/**
  The mutable graph records of src/models/types.ts. A `FeatureGraph` is one
  flow, whose node list and issues the indexer and the sorter overwrite in
  place; a `Graph` owns one `FeatureGraph` per feature name. JavaScript
  objects enumerate their string keys in insertion order, so the graph
  keeps that order next to the map.
*/
module Graphs {
  import opened Wrappers
  import opened Types
  import opened Seqs

  function NotKey(k: string): string -> bool {
    (x: string) => x != k
  }

  /** A list of names with `k` taken out. */
  function Without(keys: seq<string>, k: string): seq<string> {
    Filter(keys, NotKey(k))
  }

  lemma WithoutFacts(keys: seq<string>, k: string)
    requires Distinct(keys)
    ensures Distinct(Without(keys, k))
    ensures forall x :: x in Without(keys, k) <==> x in keys && x != k
  {
    FilterMembers(keys, NotKey(k));
    FilterDistinct(keys, NotKey(k));
  }

  /** Taking out a name that is not there changes nothing. */
  lemma {:induction false} WithoutAbsent(keys: seq<string>, k: string)
    requires k !in keys
    ensures Without(keys, k) == keys
    decreases |keys|
  {
    if keys != [] {
      assert keys == keys[..|keys| - 1] + [keys[|keys| - 1]];
      WithoutAbsent(keys[..|keys| - 1], k);
    }
  }

  class FeatureGraph {
    const feature: string
    var nodes: seq<Node>
    var issues: Option<FeatureIssues>

    /** `{ feature, nodes }`, with no issues computed yet. */
    constructor (feature: string, nodes: seq<Node>)
      ensures this.feature == feature && this.nodes == nodes && issues == None
    {
      this.feature := feature;
      this.nodes := nodes;
      issues := None;
    }
  }

  class Graph {
    /** `features`: the feature graph of each feature name. */
    var features: map<string, FeatureGraph>
    /** The names of `features` in the order the object enumerates them. */
    var keys: seq<string>

    ghost function Repr(): set<FeatureGraph>
      reads this`features
    {
      set k | k in features :: features[k]
    }

    /**
      Each entry is filed under its own feature name (so no two names share
      an object), and `keys` lists every name exactly once.
    */
    ghost predicate Valid()
      reads this
    {
      && (forall k :: k in features ==> features[k].feature == k)
      && (forall k :: k in features <==> k in keys)
      && Distinct(keys)
    }

    /** The node list of every feature. */
    ghost function Contents(): map<string, seq<Node>>
      reads this`features, Repr()`nodes
    {
      map k | k in features :: features[k].nodes
    }

    /** The cached issues of every feature. */
    ghost function Issues(): map<string, Option<FeatureIssues>>
      reads this`features, Repr()`issues
    {
      map k | k in features :: features[k].issues
    }

    /** `fg.nodes = nodes` on the entry `fg` under `k`: no other entry and no issues change. */
    method SetNodes(k: string, nodes: seq<Node>)
      requires Valid() && k in features
      modifies features[k]
      ensures Valid()
      ensures Contents() == old(Contents())[k := nodes]
      ensures Issues() == old(Issues())
    {
      var fg := features[k];
      assert forall x :: x in features && x != k ==> features[x] != fg;
      fg.nodes := nodes;
    }

    /** `fg.issues = issues` on the entry `fg` under `k`: no other entry and no node list change. */
    method SetIssues(k: string, issues: Option<FeatureIssues>)
      requires Valid() && k in features
      modifies features[k]
      ensures Valid()
      ensures Issues() == old(Issues())[k := issues]
      ensures Contents() == old(Contents())
    {
      var fg := features[k];
      assert forall x :: x in features && x != k ==> features[x] != fg;
      fg.issues := issues;
    }

    /** `delete features[k]`: the entry goes, and its name leaves the enumeration order. */
    method Delete(k: string)
      requires Valid()
      modifies this
      ensures Valid()
      ensures features == old(features) - {k}
      ensures keys == Without(old(keys), k)
      ensures Contents() == old(Contents()) - {k}
    {
      ghost var c0 := Contents();
      WithoutFacts(keys, k);
      features := features - {k};
      keys := Without(keys, k);
      assert Contents() == c0 - {k} by {
        forall x | x in features ensures features[x].nodes == c0[x] { }
      }
    }

    /** `features[fg.feature] = fg` for a new name: the entry is added and its name enumerates last. */
    method Put(fg: FeatureGraph)
      requires Valid() && fg.feature !in features
      modifies this
      ensures Valid()
      ensures features == old(features)[fg.feature := fg]
      ensures keys == old(keys) + [fg.feature]
      ensures Contents() == old(Contents())[fg.feature := fg.nodes]
    {
      ghost var c0 := Contents();
      features := features[fg.feature := fg];
      keys := keys + [fg.feature];
      assert Contents() == c0[fg.feature := fg.nodes] by {
        forall x | x in features && x != fg.feature ensures features[x].nodes == c0[x] { }
      }
    }

    /** `{ features: {} }`. */
    constructor ()
      ensures Valid() && features == map[] && keys == []
    {
      features := map[];
      keys := [];
    }
  }

  /** The entry under a listed name is in the footprint, holds that name's nodes and is no other name's entry. */
  lemma EntryAt(graph: Graph, k: string)
    requires graph.Valid() && k in graph.keys
    ensures k in graph.features && graph.features[k] in graph.Repr()
    ensures graph.features[k].nodes == graph.Contents()[k]
    ensures forall x :: x in graph.features && x != k ==> graph.features[x] != graph.features[k]
  {
  }
}
