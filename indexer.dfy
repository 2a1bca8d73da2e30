/**
  The structural check of one flow (`computeFeatureIssues`,
  src/indexer/workspaceIndexer.ts): how many start and end nodes it has, and
  which step order strings occur more than once.
*/
module Validator {
  import opened Wrappers
  import opened Types
  import opened Seqs
  import opened Graphs

  function HasRole(r: Role): Node -> bool {
    (n: Node) => n.role == r
  }

  /** `nodes.filter(n => n.role === r).length`. */
  function CountRole(nodes: seq<Node>, r: Role): nat {
    |Filter(nodes, HasRole(r))|
  }

  /** The key a node is counted under: the order string of a step, when that is not empty. */
  function StepKey(n: Node): Option<string> {
    if n.role == Step && OrderToString(n.order) != "" then Some(OrderToString(n.order)) else None
  }

  /** The keys of the nodes, in node order, one per counted step. */
  function StepKeys(nodes: seq<Node>): seq<string> {
    if nodes == [] then []
    else
      var n := nodes[|nodes| - 1];
      StepKeys(nodes[..|nodes| - 1]) + (if StepKey(n).Some? then [StepKey(n).value] else [])
  }

  /** The distinct keys in the order they first occur: the iteration order of the `orders` map. */
  function FirstOccurrences(keys: seq<string>): seq<string> {
    if keys == [] then []
    else
      var k := keys[|keys| - 1];
      FirstOccurrences(keys[..|keys| - 1]) + (if k in keys[..|keys| - 1] then [] else [k])
  }

  /** The `duplicateOrders` entries of the keys `ds`, in their order: those counted more than once in `keys`. */
  function Duplicates(ds: seq<string>, keys: seq<string>): seq<OrderCount> {
    if ds == [] then []
    else
      var k := ds[|ds| - 1];
      var c := multiset(keys)[k];
      Duplicates(ds[..|ds| - 1], keys) + (if c > 1 then [OrderCount(k, c)] else [])
  }

  /** What `computeFeatureIssues` returns for a node list. */
  function IssuesOf(nodes: seq<Node>): (r: FeatureIssues)
    ensures r.missingStart <==> CountRole(nodes, Start) != 1
    ensures r.missingEnd <==> CountRole(nodes, End) != 1
    ensures r.duplicateOrders != Some([])
  {
    var startCount := CountRole(nodes, Start);
    var endCount := CountRole(nodes, End);
    var keys := StepKeys(nodes);
    var dups := Duplicates(FirstOccurrences(keys), keys);
    FeatureIssues(startCount == 0 || startCount > 1, endCount == 0 || endCount > 1,
                  if dups == [] then None else Some(dups))
  }

  /**
    `computeFeatureIssues` (workspaceIndexer.ts:144-167): the start and end
    counts, a count per order string in a map that remembers the order keys
    were first set in, then the keys counted more than once.
  */
  method ComputeFeatureIssues(f: FeatureGraph) returns (issues: FeatureIssues)
    ensures issues == IssuesOf(f.nodes)
  {
    var nodes := f.nodes;
    var startCount := |Filter(nodes, HasRole(Start))|;
    var endCount := |Filter(nodes, HasRole(End))|;
    var orders, orderKeys := CountOrders(nodes);
    FirstOccurrencesMembers(StepKeys(nodes));
    CountsAreMultiplicities(StepKeys(nodes));
    var duplicateOrders := CollectDuplicates(orders, orderKeys, StepKeys(nodes));
    issues := FeatureIssues(startCount == 0 || startCount > 1, endCount == 0 || endCount > 1,
                            if |duplicateOrders| > 0 then Some(duplicateOrders) else None);
  }

  /**
    The first loop of `computeFeatureIssues` (workspaceIndexer.ts:147-155):
    a count per non-empty step order string; `orderKeys` is the order in
    which the map first received each key.
  */
  method CountOrders(nodes: seq<Node>) returns (orders: map<string, nat>, orderKeys: seq<string>)
    ensures orderKeys == FirstOccurrences(StepKeys(nodes))
    ensures orders == Counts(StepKeys(nodes))
  {
    orders := map[];
    orderKeys := [];
    for i := 0 to |nodes|
      invariant orderKeys == FirstOccurrences(StepKeys(nodes[..i]))
      invariant orders == Counts(StepKeys(nodes[..i]))
    {
      ghost var before := StepKeys(nodes[..i]);
      StepKeysSnoc(nodes, i);
      var n := nodes[i];
      if n.role == Step {
        var key := OrderToString(n.order);
        if key != "" {
          assert StepKeys(nodes[..i + 1]) == before + [key];
          CountsSnoc(before, key);
          CountsMember(before, key);
          FirstOccurrencesSnoc(before, key);
          var count := if key in orders then orders[key] else 0;
          if key !in orders {
            orderKeys := orderKeys + [key];
          }
          orders := orders[key := count + 1];
        } else {
          assert StepKeys(nodes[..i + 1]) == before;
        }
      } else {
        assert StepKeys(nodes[..i + 1]) == before;
      }
    }
    assert nodes[..|nodes|] == nodes;
  }

  /** The `orders` map after counting `keys` one by one. */
  function Counts(keys: seq<string>): map<string, nat> {
    if keys == [] then map[]
    else
      var m := Counts(keys[..|keys| - 1]);
      var k := keys[|keys| - 1];
      m[k := (if k in m then m[k] else 0) + 1]
  }

  lemma CountsSnoc(keys: seq<string>, k: string)
    ensures Counts(keys + [k]) == Counts(keys)[k := (if k in Counts(keys) then Counts(keys)[k] else 0) + 1]
  {
    assert (keys + [k])[..|keys|] == keys;
  }

  lemma {:induction false} CountsMember(keys: seq<string>, k: string)
    ensures k in Counts(keys) <==> k in keys
    decreases |keys|
  {
    if keys != [] {
      CountsMember(keys[..|keys| - 1], k);
      assert keys == keys[..|keys| - 1] + [keys[|keys| - 1]];
    }
  }

  /** The map counts each key as often as it occurs, and holds no other key. */
  lemma {:induction false} CountsAreMultiplicities(keys: seq<string>)
    ensures forall k :: k in Counts(keys) <==> k in keys
    ensures forall k :: k in Counts(keys) ==> Counts(keys)[k] == multiset(keys)[k]
    decreases |keys|
  {
    if keys != [] {
      var init := keys[..|keys| - 1];
      CountsAreMultiplicities(init);
      assert keys == init + [keys[|keys| - 1]];
    }
  }

  lemma StepKeysSnoc(nodes: seq<Node>, i: nat)
    requires i < |nodes|
    ensures StepKeys(nodes[..i + 1]) ==
              StepKeys(nodes[..i]) + (if StepKey(nodes[i]).Some? then [StepKey(nodes[i]).value] else [])
  {
    assert nodes[..i + 1][..i] == nodes[..i];
  }

  lemma FirstOccurrencesSnoc(keys: seq<string>, k: string)
    ensures FirstOccurrences(keys + [k]) == FirstOccurrences(keys) + (if k in keys then [] else [k])
  {
    assert (keys + [k])[..|keys|] == keys;
  }

  /** The second loop (workspaceIndexer.ts:156-161): the keys, in map order, counted more than once. */
  method CollectDuplicates(orders: map<string, nat>, orderKeys: seq<string>, ghost keys: seq<string>)
    returns (duplicateOrders: seq<OrderCount>)
    requires forall k :: k in orderKeys ==> k in orders && orders[k] == multiset(keys)[k]
    ensures duplicateOrders == Duplicates(orderKeys, keys)
  {
    duplicateOrders := [];
    for j := 0 to |orderKeys|
      invariant duplicateOrders == Duplicates(orderKeys[..j], keys)
    {
      assert orderKeys[..j + 1][..j] == orderKeys[..j];
      var order := orderKeys[j];
      var count := orders[order];
      if count > 1 {
        duplicateOrders := duplicateOrders + [OrderCount(order, count)];
      }
    }
    assert orderKeys[..|orderKeys|] == orderKeys;
  }

  /** Every key occurs among the first occurrences, and nothing else. */
  lemma {:induction false} FirstOccurrencesMembers(keys: seq<string>)
    ensures forall k :: k in FirstOccurrences(keys) <==> k in keys
    decreases |keys|
  {
    if keys != [] {
      FirstOccurrencesMembers(keys[..|keys| - 1]);
      assert keys == keys[..|keys| - 1] + [keys[|keys| - 1]];
    }
  }

  // ---------------------------------------------------------------------
  // What the issues say

  /** The steps whose order string is `k`. */
  function StepWithKey(k: string): Node -> bool {
    (n: Node) => n.role == Step && OrderToString(n.order) == k
  }

  /** How many steps carry the order string `k`. */
  function StepCount(nodes: seq<Node>, k: string): nat {
    |Filter(nodes, StepWithKey(k))|
  }

  /** The entries of `duplicateOrders`, none when it is absent. */
  function Entries(issues: FeatureIssues): seq<OrderCount> {
    if issues.duplicateOrders.Some? then issues.duplicateOrders.value else []
  }

  lemma {:induction false} StepKeysAppend(a: seq<Node>, b: seq<Node>)
    ensures StepKeys(a + b) == StepKeys(a) + StepKeys(b)
    decreases |b|
  {
    if b == [] {
      assert a + b == a;
    } else {
      assert (a + b)[..|a + b| - 1] == a + b[..|b| - 1];
      StepKeysAppend(a, b[..|b| - 1]);
    }
  }

  /** A non-empty order string is counted once per step that carries it; the empty one never. */
  lemma {:induction false} StepKeysCount(nodes: seq<Node>, k: string)
    ensures multiset(StepKeys(nodes))[k] == (if k == "" then 0 else StepCount(nodes, k))
    decreases |nodes|
  {
    if nodes != [] {
      var init := nodes[..|nodes| - 1];
      StepKeysCount(init, k);
      assert nodes == init + [nodes[|nodes| - 1]];
      FilterAppend(init, [nodes[|nodes| - 1]], StepWithKey(k));
    }
  }

  /** What `Duplicates` lists, for distinct keys `ds`: each key of `ds` counted more than once, with its count. */
  lemma {:induction false} DuplicatesExact(ds: seq<string>, keys: seq<string>)
    requires Distinct(ds)
    ensures forall e :: e in Duplicates(ds, keys) ==> e.order in ds && e.count == multiset(keys)[e.order] > 1
    ensures forall k :: k in ds && multiset(keys)[k] > 1 ==> OrderCount(k, multiset(keys)[k]) in Duplicates(ds, keys)
    ensures forall i, j :: 0 <= i < j < |Duplicates(ds, keys)| ==> Duplicates(ds, keys)[i].order != Duplicates(ds, keys)[j].order
    decreases |ds|
  {
    if ds != [] {
      var init := ds[..|ds| - 1];
      assert ds == init + [ds[|ds| - 1]];
      DuplicatesExact(init, keys);
    }
  }

  lemma {:induction false} FirstOccurrencesDistinct(keys: seq<string>)
    ensures Distinct(FirstOccurrences(keys))
    decreases |keys|
  {
    if keys != [] {
      var init := keys[..|keys| - 1];
      FirstOccurrencesDistinct(init);
      FirstOccurrencesMembers(init);
    }
  }

  /** The entries are what `Duplicates` computes over the steps' order strings. */
  lemma EntriesAreDuplicates(nodes: seq<Node>)
    ensures Entries(IssuesOf(nodes)) == Duplicates(FirstOccurrences(StepKeys(nodes)), StepKeys(nodes))
  {
  }

  lemma DuplicateOrdersEntries(nodes: seq<Node>)
    ensures forall e :: e in Entries(IssuesOf(nodes)) ==>
              e.order != "" && e.count == StepCount(nodes, e.order) > 1
    ensures forall k :: k != "" && StepCount(nodes, k) > 1 ==>
              OrderCount(k, StepCount(nodes, k)) in Entries(IssuesOf(nodes))
    ensures forall i, j :: 0 <= i < j < |Entries(IssuesOf(nodes))| ==>
              Entries(IssuesOf(nodes))[i].order != Entries(IssuesOf(nodes))[j].order
  {
    var keys := StepKeys(nodes);
    var ds := FirstOccurrences(keys);
    EntriesAreDuplicates(nodes);
    FirstOccurrencesDistinct(keys);
    FirstOccurrencesMembers(keys);
    DuplicatesExact(ds, keys);
    forall k ensures multiset(keys)[k] == (if k == "" then 0 else StepCount(nodes, k)) {
      StepKeysCount(nodes, k);
    }
  }

  /**
    `duplicateOrders` lists exactly the non-empty order strings that more
    than one step carries, each once and with its count, and is absent
    when there is none.
  */
  lemma DuplicateOrdersExact(nodes: seq<Node>)
    ensures forall e :: e in Entries(IssuesOf(nodes)) ==>
              e.order != "" && e.count == StepCount(nodes, e.order) > 1
    ensures forall k :: k != "" && StepCount(nodes, k) > 1 ==>
              OrderCount(k, StepCount(nodes, k)) in Entries(IssuesOf(nodes))
    ensures forall i, j :: 0 <= i < j < |Entries(IssuesOf(nodes))| ==>
              Entries(IssuesOf(nodes))[i].order != Entries(IssuesOf(nodes))[j].order
    ensures IssuesOf(nodes).duplicateOrders.None? <==> forall k :: k != "" ==> StepCount(nodes, k) <= 1
  {
    DuplicateOrdersEntries(nodes);
    var d := IssuesOf(nodes).duplicateOrders;
    if d.Some? {
      assert d.value != [];
      var e := d.value[0];
      assert e in Entries(IssuesOf(nodes));
      assert e.order != "" && StepCount(nodes, e.order) > 1;
    } else {
      assert Entries(IssuesOf(nodes)) == [];
    }
  }

  lemma {:induction false} StepKeysSkip(a: seq<Node>, n: Node, b: seq<Node>)
    requires StepKey(n).None?
    ensures StepKeys(a + [n] + b) == StepKeys(a + b)
  {
    StepKeysAppend(a + [n], b);
    StepKeysAppend(a, [n]);
    StepKeysAppend(a, b);
    assert StepKeys([n]) == [] by { assert [n][..0] == []; }
  }

  lemma {:induction false} CountRoleSkip(a: seq<Node>, n: Node, b: seq<Node>, r: Role)
    requires n.role != r
    ensures CountRole(a + [n] + b, r) == CountRole(a + b, r)
  {
    FilterAppend(a + [n], b, HasRole(r));
    FilterAppend(a, [n], HasRole(r));
    FilterAppend(a, b, HasRole(r));
    assert Filter([n], HasRole(r)) == [] by { assert [n][..0] == []; }
  }

  /**
    A node that is neither a start nor an end and is not a step with an
    order string changes nothing: in particular steps without an order are
    never counted.
  */
  lemma UncountedNodeIgnored(a: seq<Node>, n: Node, b: seq<Node>)
    requires n.role != Start && n.role != End && StepKey(n).None?
    ensures IssuesOf(a + [n] + b) == IssuesOf(a + b)
  {
    StepKeysSkip(a, n, b);
    CountRoleSkip(a, n, b, Start);
    CountRoleSkip(a, n, b, End);
  }

  /**
    The issues depend only on which nodes a flow has, not on their order,
    up to the order in which `duplicateOrders` lists its entries.
  */
  lemma IssuesUnderPermutation(a: seq<Node>, b: seq<Node>)
    requires multiset(a) == multiset(b)
    ensures IssuesOf(a).missingStart == IssuesOf(b).missingStart
    ensures IssuesOf(a).missingEnd == IssuesOf(b).missingEnd
    ensures IssuesOf(a).duplicateOrders.None? == IssuesOf(b).duplicateOrders.None?
    ensures forall e :: e in Entries(IssuesOf(a)) <==> e in Entries(IssuesOf(b))
  {
    FilterCountPerm(a, b, HasRole(Start));
    FilterCountPerm(a, b, HasRole(End));
    forall k ensures StepCount(a, k) == StepCount(b, k) {
      FilterCountPerm(a, b, StepWithKey(k));
    }
    DuplicateOrdersExact(a);
    DuplicateOrdersExact(b);
  }
}
