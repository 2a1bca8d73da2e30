/**
  The flow tree of src/tree/flowTreeProvider.ts: one root item per feature;
  under a feature its start items, then one group per first level of its
  ordered steps, then its end items; under a group, one group per next
  level. The VS Code tree item is a plain record here.
*/
module Tree {
  import opened Wrappers
  import opened Strings
  import opened Types
  import opened Seqs
  import opened Graphs
  import opened Validator

  datatype Kind = FeatureKind | StartKind | EndKind | LevelKind

  /** `vscode.TreeItemCollapsibleState`: `None` or `Collapsed`. */
  datatype Collapsible = NotCollapsible | Collapsed

  /** The `flow-comments.reveal` command of `buildRevealCommand`, with the file path for its URI. */
  datatype RevealCommand = RevealCommand(file: string, line: nat, feature: string, role: Role, order: seq<nat>)

  datatype FlowTreeItem = FlowTreeItem(
    text: string,
    kind: Kind,
    feature: string,
    collapsible: Collapsible,
    description: Option<string>,
    node: Option<Node>,
    path: Option<seq<nat>>,
    depth: Option<nat>,
    tooltip: Option<string>,
    command: Option<RevealCommand>,
    contextValue: Option<string>)

  /** `new FlowTreeItem(text, kind, feature, collapsible)`: every other field unset. */
  function NewItem(text: string, kind: Kind, feature: string, collapsible: Collapsible): FlowTreeItem {
    FlowTreeItem(text, kind, feature, collapsible, None, None, None, None, None, None, None)
  }

  // ---------------------------------------------------------------------
  // Labels and tooltips

  /** `n.meta?.desc` is a non-empty string. */
  predicate HasDesc(n: Node) {
    n.meta.Some? && n.meta.value.desc.Some? && n.meta.value.desc.value != ""
  }

  /** `labelFromDesc`: the desc after one space, or nothing. */
  function LabelFromDesc(n: Node): (r: string)
    ensures r == "" <==> !HasDesc(n)
    ensures HasDesc(n) ==> r == " " + n.meta.value.desc.value
  {
    if HasDesc(n) then " " + n.meta.value.desc.value else ""
  }

  /** The first part of a tooltip: the order string of a step, the role of anything else. */
  function TooltipTitle(n: Node): string {
    if n.role == Step then (if n.order.Some? then LevelsToString(n.order.value.levels) else "") else RoleName(n.role)
  }

  /** `buildTooltip`: title, desc when present, and `file:line`, joined with ` — `. */
  function BuildTooltip(n: Node): (r: string)
    ensures r == TooltipTitle(n) + " — " + (if HasDesc(n) then n.meta.value.desc.value + " — " else "")
                 + n.file + ":" + NatToString(n.line)
  {
    var loc := n.file + ":" + NatToString(n.line);
    var parts := [TooltipTitle(n)] + (if HasDesc(n) then [n.meta.value.desc.value] else []) + [loc];
    if HasDesc(n) then
      assert parts[1..][1..] == [loc];
      assert Join(parts[1..], " — ") == n.meta.value.desc.value + " — " + loc;
      Join(parts, " — ")
    else
      assert parts[1..] == [loc];
      Join(parts, " — ")
  }

  /** The tooltip title of a step is its order string. */
  lemma TooltipTitleOfStep(n: Node)
    requires n.role == Step
    ensures TooltipTitle(n) == OrderToString(n.order)
  {
  }

  function BuildRevealCommand(n: Node): RevealCommand {
    RevealCommand(n.file, n.line, n.feature, n.role, if n.order.Some? then n.order.value.levels else [])
  }

  // ---------------------------------------------------------------------
  // Items

  function NoDataItem(): FlowTreeItem {
    NewItem("No data yet", FeatureKind, "", NotCollapsible)
  }

  /** The root item of a feature, described by its node count. */
  function FeatureItem(feature: string, count: nat): FlowTreeItem {
    NewItem(feature, FeatureKind, feature, Collapsed).(description := Some(NatToString(count)), contextValue := Some("flowFeature"))
  }

  /** The item of a start node (`role` is `Start`) or an end node (anything else). */
  function NodeItem(n: Node, role: Role, feature: string): FlowTreeItem {
    var isStart := role == Start;
    NewItem((if isStart then "start" else "end") + LabelFromDesc(n), if isStart then StartKind else EndKind, feature, NotCollapsible)
      .(node := Some(n), tooltip := Some(BuildTooltip(n)), command := Some(BuildRevealCommand(n)),
        contextValue := Some(if isStart then "flowStart" else "flowEnd"))
  }

  /** The root items: one per feature, in enumeration order. */
  function RootItems(keys: seq<string>, c: map<string, seq<Node>>): (r: seq<FlowTreeItem>)
    ensures |r| == |keys|
  {
    if keys == [] then []
    else
      var k := keys[|keys| - 1];
      RootItems(keys[..|keys| - 1], c) + [FeatureItem(k, if k in c then |c[k]| else 0)]
  }

  /** The items of the nodes with role `role`, in node order. */
  function RoleItems(nodes: seq<Node>, role: Role, feature: string): seq<FlowTreeItem> {
    if nodes == [] then []
    else
      var n := nodes[|nodes| - 1];
      RoleItems(nodes[..|nodes| - 1], role, feature) + (if n.role == role then [NodeItem(n, role, feature)] else [])
  }

  // ---------------------------------------------------------------------
  // Groups

  /** `n.order?.levels?.length || 0`. */
  function LevelCount(n: Node): nat {
    if n.order.Some? then |n.order.value.levels| else 0
  }

  /** A step whose levels start with `p` and go deeper: it belongs under the group at `p`. */
  function Under(p: seq<nat>): Node -> bool {
    (n: Node) => n.role == Step && n.order.Some? && |n.order.value.levels| > |p| && n.order.value.levels[..|p|] == p
  }

  /** A step whose levels start with `q`. */
  function Below(q: seq<nat>): Node -> bool {
    (n: Node) => n.role == Step && n.order.Some? && |n.order.value.levels| >= |q| && n.order.value.levels[..|q|] == q
  }

  /** The steps under `p` grouped by their next level, as the `lv1` / `nextGroups` maps collect them. */
  function Bucket(nodes: seq<Node>, p: seq<nat>): map<nat, seq<Node>> {
    if nodes == [] then map[]
    else
      var b := Bucket(nodes[..|nodes| - 1], p);
      var n := nodes[|nodes| - 1];
      if Under(p)(n) then
        var k := n.order.value.levels[|p|];
        b[k := (if k in b then b[k] else []) + [n]]
      else b
  }

  /** The keys of that map in insertion order. */
  function BucketKeys(nodes: seq<Node>, p: seq<nat>): seq<nat> {
    if nodes == [] then []
    else
      var ks := BucketKeys(nodes[..|nodes| - 1], p);
      var n := nodes[|nodes| - 1];
      if Under(p)(n) && n.order.value.levels[|p|] !in Bucket(nodes[..|nodes| - 1], p) then ks + [n.order.value.levels[|p|]] else ks
  }

  /** `s` with `x` put before the first element not below it. */
  function InsertNat(s: seq<nat>, x: nat): (r: seq<nat>)
    ensures |r| == |s| + 1
  {
    if s == [] then [x]
    else if x <= s[0] then [x] + s
    else [s[0]] + InsertNat(s[1..], x)
  }

  /** The ascending sort of the group keys (`.sort((a, b) => a[0] - b[0])`). */
  function SortNats(s: seq<nat>): (r: seq<nat>)
    ensures |r| == |s|
  {
    if s == [] then [] else InsertNat(SortNats(s[..|s| - 1]), s[|s| - 1])
  }

  /** The next levels present under `p`, ascending. */
  function NextLevels(nodes: seq<Node>, p: seq<nat>): seq<nat> {
    SortNats(BucketKeys(nodes, p))
  }

  /** `i` is the first place in `arr` holding a member with `d` levels. */
  predicate FirstWithLength(arr: seq<Node>, d: nat, i: int) {
    0 <= i < |arr| && LevelCount(arr[i]) == d && forall j :: 0 <= j < i ==> LevelCount(arr[j]) != d
  }

  /** `arr.find(n => levels.length === d)`. */
  function FindLength(arr: seq<Node>, d: nat): (r: Option<Node>)
    ensures r.Some? ==> exists i :: FirstWithLength(arr, d, i) && arr[i] == r.value
    ensures r.None? <==> forall i :: 0 <= i < |arr| ==> LevelCount(arr[i]) != d
  {
    if arr == [] then None
    else if LevelCount(arr[0]) == d then
      assert FirstWithLength(arr, d, 0);
      Some(arr[0])
    else
      var r := FindLength(arr[1..], d);
      assert forall i :: 1 <= i < |arr| ==> arr[i] == arr[1..][i - 1];
      assert r.Some? ==> exists i :: FirstWithLength(arr, d, i) && arr[i] == r.value by {
        if r.Some? {
          var i :| FirstWithLength(arr[1..], d, i) && arr[1..][i] == r.value;
          assert FirstWithLength(arr, d, i + 1);
        }
      }
      r
  }

  /** `arr.some(n => levels.length > d)`. */
  predicate AnyLonger(arr: seq<Node>, d: nat) {
    exists i :: 0 <= i < |arr| && LevelCount(arr[i]) > d
  }

  /** The group item for next level `k` under `p`, from the steps `arr` of that group. */
  function GroupItem(arr: seq<Node>, p: seq<nat>, k: nat, depth: nat, feature: string): FlowTreeItem {
    var childPath := p + [k];
    var pure := FindLength(arr, |childPath|);
    var labelBase := LevelsToString(childPath);
    NewItem(if pure.Some? then labelBase + LabelFromDesc(pure.value) else labelBase, LevelKind, feature,
            if AnyLonger(arr, |childPath|) then Collapsed else NotCollapsible)
      .(path := Some(childPath), depth := Some(depth), node := pure,
        tooltip := if pure.Some? then Some(BuildTooltip(pure.value)) else None,
        command := if pure.Some? then Some(BuildRevealCommand(pure.value)) else None,
        contextValue := if pure.Some? then Some("flowNode") else None)
  }

  /** One group item per key of `ks`, in that order. */
  function GroupItems(b: map<nat, seq<Node>>, ks: seq<nat>, p: seq<nat>, depth: nat, feature: string): (r: seq<FlowTreeItem>)
    ensures |r| == |ks|
  {
    if ks == [] then []
    else
      var k := ks[|ks| - 1];
      GroupItems(b, ks[..|ks| - 1], p, depth, feature) + [GroupItem(if k in b then b[k] else [], p, k, depth, feature)]
  }

  /** The groups under `p`: one per next level present, ascending. */
  function Groups(nodes: seq<Node>, p: seq<nat>, depth: nat, feature: string): seq<FlowTreeItem> {
    GroupItems(Bucket(nodes, p), NextLevels(nodes, p), p, depth, feature)
  }

  /** The children of a feature item: starts, level-1 groups, ends. */
  function FeatureChildren(nodes: seq<Node>, feature: string): seq<FlowTreeItem> {
    RoleItems(nodes, Start, feature) + Groups(nodes, [], 1, feature) + RoleItems(nodes, End, feature)
  }

  /** The path of a level item (`element.path || []`). */
  function PathOf(e: FlowTreeItem): seq<nat> {
    if e.path.Some? then e.path.value else []
  }

  /** The depth of the children of a level item (`(element.depth || path.length) + 1`). */
  function ChildDepth(e: FlowTreeItem): nat {
    (if e.depth.Some? && e.depth.value != 0 then e.depth.value else |PathOf(e)|) + 1
  }

  /** The graph as the tree sees it: the feature names in order and their node lists. */
  datatype GraphView = GraphView(keys: seq<string>, contents: map<string, seq<Node>>)

  /** `getChildren(element)` on the graph `view` (none before `setGraph`). */
  function Children(view: Option<GraphView>, element: Option<FlowTreeItem>): seq<FlowTreeItem> {
    if view.None? || view.value.keys == [] then
      if element.None? then [NoDataItem()] else []
    else if element.None? then
      RootItems(view.value.keys, view.value.contents)
    else
      var e := element.value;
      var c := view.value.contents;
      if e.feature !in c then []
      else if e.kind == FeatureKind then FeatureChildren(c[e.feature], e.feature)
      else if e.kind == LevelKind then Groups(c[e.feature], PathOf(e), ChildDepth(e), e.feature)
      else []
  }

  /** A level item carries a non-empty path, as every level item the tree makes does. */
  predicate LevelHasPath(e: FlowTreeItem) {
    e.kind == LevelKind ==> e.path.Some? && e.path.value != []
  }

  // ---------------------------------------------------------------------
  // The provider

  class FlowTreeProvider {
    var graph: Graph?

    constructor ()
      ensures graph == null
    {
      graph := null;
    }

    /** `setGraph`: the tree shows `g` from now on. */
    method SetGraph(g: Graph)
      modifies this
      ensures graph == g
    {
      graph := g;
    }

    ghost function View(): Option<GraphView>
      reads this, graph, if graph != null then graph.Repr() else {}
    {
      if graph == null then None else Some(GraphView(graph.keys, graph.Contents()))
    }

    /**
      `getChildren(element)`: the children `Children` specifies. With no graph
      or no feature, the root is the single "No data yet" item; otherwise the
      root has one item per feature, described by its node count.
    */
    method GetChildren(element: Option<FlowTreeItem>) returns (res: seq<FlowTreeItem>)
      requires graph != null ==> graph.Valid()
      requires element.Some? ==> LevelHasPath(element.value)
      ensures res == Children(View(), element)
      ensures element.None? && (graph == null || graph.features == map[]) ==> res == [NoDataItem()]
      ensures element.None? && graph != null && graph.features != map[] ==>
        |res| == |graph.keys| &&
        forall i :: 0 <= i < |res| ==> res[i] == FeatureItem(graph.keys[i], |graph.features[graph.keys[i]].nodes|)
    {
      if graph == null || |graph.keys| == 0 {
        if element.None? {
          res := [NoDataItem()];
        } else {
          res := [];
        }
        return;
      }
      assert graph.keys[0] in graph.features;
      if element.None? {
        res := RootChildren(graph);
      } else {
        res := ElementChildren(graph, element.value);
      }
    }

    /** The root branch of `getChildren` on a non-empty graph: one item per feature, described by its node count. */
    static method RootChildren(graph: Graph) returns (res: seq<FlowTreeItem>)
      requires graph.Valid() && graph.keys != []
      ensures res == Children(Some(GraphView(graph.keys, graph.Contents())), None)
      ensures |res| == |graph.keys|
      ensures forall i :: 0 <= i < |res| ==> res[i] == FeatureItem(graph.keys[i], |graph.features[graph.keys[i]].nodes|)
    {
      res := CollectRoots(graph);
      RootItemsAt(graph.keys, graph.Contents());
    }

    /** The element branch of `getChildren`: the children of a feature or level item of a non-empty graph. */
    static method ElementChildren(graph: Graph, e: FlowTreeItem) returns (res: seq<FlowTreeItem>)
      requires graph.Valid() && graph.keys != []
      requires LevelHasPath(e)
      ensures res == Children(Some(GraphView(graph.keys, graph.Contents())), Some(e))
    {
      ghost var c := graph.Contents();
      if e.feature !in graph.features {
        res := [];
        return;
      }
      var nodes := graph.features[e.feature].nodes;
      assert e.feature in c && c[e.feature] == nodes;
      if e.kind == FeatureKind {
        var starts := CollectRoleItems(nodes, Start, e.feature);
        var groups := CollectGroups(nodes, [], 1, e.feature);
        var ends := CollectRoleItems(nodes, End, e.feature);
        res := starts + groups + ends;
        assert res == FeatureChildren(nodes, e.feature);
      } else if e.kind == LevelKind {
        var path := if e.path.Some? then e.path.value else [];
        var depth := (if e.depth.Some? && e.depth.value != 0 then e.depth.value else |path|) + 1;
        assert path == PathOf(e) && depth == ChildDepth(e);
        res := CollectGroups(nodes, path, depth, e.feature);
      } else {
        res := [];
      }
    }
  }

  /** The root loop: one item per feature, in enumeration order. */
  method CollectRoots(graph: Graph) returns (items: seq<FlowTreeItem>)
    requires graph.Valid()
    ensures items == RootItems(graph.keys, graph.Contents())
  {
    items := [];
    for i := 0 to |graph.keys|
      invariant items == RootItems(graph.keys[..i], graph.Contents())
    {
      var k := graph.keys[i];
      assert graph.keys[..i + 1][..i] == graph.keys[..i];
      items := items + [FeatureItem(k, |graph.features[k].nodes|)];
    }
    assert graph.keys[..|graph.keys|] == graph.keys;
  }

  /** The start loop or the end loop of a feature item. */
  method CollectRoleItems(nodes: seq<Node>, role: Role, feature: string) returns (res: seq<FlowTreeItem>)
    ensures res == RoleItems(nodes, role, feature)
  {
    res := [];
    for i := 0 to |nodes|
      invariant res == RoleItems(nodes[..i], role, feature)
    {
      assert nodes[..i + 1][..i] == nodes[..i];
      var n := nodes[i];
      if n.role == role {
        res := res + [NodeItem(n, role, feature)];
      }
    }
    assert nodes[..|nodes|] == nodes;
  }

  /**
    The grouping loops: the steps under `path` collected by next level into a
    map that remembers insertion order, the keys sorted, one item per key.
  */
  method CollectGroups(nodes: seq<Node>, path: seq<nat>, depth: nat, feature: string) returns (res: seq<FlowTreeItem>)
    ensures res == Groups(nodes, path, depth, feature)
  {
    var groups: map<nat, seq<Node>> := map[];
    var order: seq<nat> := [];
    for i := 0 to |nodes|
      invariant groups == Bucket(nodes[..i], path) && order == BucketKeys(nodes[..i], path)
    {
      BucketStep(nodes, path, i);
      var n := nodes[i];
      if Under(path)(n) {
        var next := n.order.value.levels[|path|];
        if next !in groups {
          order := order + [next];
        }
        var arr := if next in groups then groups[next] else [];
        groups := groups[next := arr + [n]];
      }
    }
    assert nodes[..|nodes|] == nodes;
    var sorted := SortNats(order);
    res := [];
    for j := 0 to |sorted|
      invariant res == GroupItems(groups, sorted[..j], path, depth, feature)
    {
      assert sorted[..j + 1][..j] == sorted[..j];
      var k := sorted[j];
      res := res + [GroupItem(if k in groups then groups[k] else [], path, k, depth, feature)];
    }
    assert sorted[..|sorted|] == sorted;
  }

  // ---------------------------------------------------------------------
  // What the tree shows

  /** The root items name the features in enumeration order, each described by its node count. */
  lemma {:induction false} RootItemsAt(keys: seq<string>, c: map<string, seq<Node>>)
    ensures forall i :: 0 <= i < |keys| ==>
      RootItems(keys, c)[i] == FeatureItem(keys[i], if keys[i] in c then |c[keys[i]]| else 0)
    decreases |keys|
  {
    if keys != [] {
      RootItemsAt(keys[..|keys| - 1], c);
    }
  }

  /** The start (or end) items are the items of the start (or end) nodes, in node order. */
  lemma {:induction false} RoleItemsAre(nodes: seq<Node>, role: Role, feature: string)
    ensures |RoleItems(nodes, role, feature)| == |Filter(nodes, HasRole(role))|
    ensures forall i :: 0 <= i < |RoleItems(nodes, role, feature)| ==>
      RoleItems(nodes, role, feature)[i] == NodeItem(Filter(nodes, HasRole(role))[i], role, feature)
    decreases |nodes|
  {
    if nodes != [] {
      RoleItemsAre(nodes[..|nodes| - 1], role, feature);
    }
  }

  /** Strictly ascending. */
  predicate Increasing(s: seq<nat>) {
    forall i, j :: 0 <= i < j < |s| ==> s[i] < s[j]
  }

  lemma InsertNatSorted(s: seq<nat>, x: nat)
    requires Increasing(s) && x !in s
    ensures Increasing(InsertNat(s, x))
    ensures multiset(InsertNat(s, x)) == multiset(s) + multiset{x}
  {
    InsertNatMultiset(s, x);
    InsertNatIncreasing(s, x);
  }

  lemma {:induction false} InsertNatMultiset(s: seq<nat>, x: nat)
    ensures multiset(InsertNat(s, x)) == multiset(s) + multiset{x}
    decreases |s|
  {
    if s != [] && x > s[0] {
      InsertNatMultiset(s[1..], x);
      assert s == [s[0]] + s[1..];
    }
  }

  lemma {:induction false} InsertNatIncreasing(s: seq<nat>, x: nat)
    requires Increasing(s) && x !in s
    ensures Increasing(InsertNat(s, x))
    decreases |s|
  {
    if s == [] {
    } else if x <= s[0] {
      forall i | 0 <= i < |s| ensures x < s[i] {
        if i > 0 {
          assert s[0] < s[i];
        }
      }
      ConsIncreasing(x, s);
    } else {
      var tail := s[1..];
      assert Increasing(tail) by {
        forall i, j | 0 <= i < j < |tail| ensures tail[i] < tail[j] {
          assert tail[i] == s[i + 1] && tail[j] == s[j + 1];
        }
      }
      InsertNatIncreasing(tail, x);
      InsertNatMultiset(tail, x);
      var r := InsertNat(tail, x);
      forall i | 0 <= i < |r| ensures s[0] < r[i] {
        assert r[i] in multiset(r);
        if r[i] != x {
          assert r[i] in tail;
          var k :| 0 <= k < |tail| && tail[k] == r[i];
          assert s[k + 1] == r[i];
        }
      }
      ConsIncreasing(s[0], r);
    }
  }

  /** A head below every element of an increasing list keeps it increasing. */
  lemma ConsIncreasing(h: nat, r: seq<nat>)
    requires Increasing(r) && forall i :: 0 <= i < |r| ==> h < r[i]
    ensures Increasing([h] + r)
  {
    var q := [h] + r;
    forall i, j | 0 <= i < j < |q| ensures q[i] < q[j] {
      assert q[j] == r[j - 1];
      if i > 0 {
        assert q[i] == r[i - 1];
      }
    }
  }

  /** Sorting distinct keys gives them ascending, each once. */
  lemma {:induction false} SortNatsSorted(s: seq<nat>)
    requires Distinct(s)
    ensures Increasing(SortNats(s))
    ensures multiset(SortNats(s)) == multiset(s)
    decreases |s|
  {
    if s != [] {
      var init := s[..|s| - 1];
      SortNatsSorted(init);
      assert s == init + [s[|s| - 1]];
      assert s[|s| - 1] !in multiset(init);
      InsertNatSorted(SortNats(init), s[|s| - 1]);
    }
  }

  /** A step is under `p` with next level `k` exactly when its levels start with `p + [k]`. */
  lemma UnderIsBelow(p: seq<nat>, n: Node, k: nat)
    ensures Below(p + [k])(n) <==> Under(p)(n) && n.order.value.levels[|p|] == k
  {
    if Below(p + [k])(n) {
      var l := n.order.value.levels;
      assert l[..|p|] == l[..|p| + 1][..|p|];
      assert l[|p|] == l[..|p| + 1][|p|];
    }
    if Under(p)(n) && n.order.value.levels[|p|] == k {
      var l := n.order.value.levels;
      assert l[..|p| + 1] == l[..|p|] + [l[|p|]];
    }
  }

  /** The group of next level `k` holds exactly the steps whose levels start with `p + [k]`, in node order. */
  lemma BucketAt(nodes: seq<Node>, p: seq<nat>)
    ensures forall k :: k in Bucket(nodes, p) <==> Filter(nodes, Below(p + [k])) != []
    ensures forall k :: k in Bucket(nodes, p) ==> Bucket(nodes, p)[k] == Filter(nodes, Below(p + [k]))
    ensures forall k :: k in BucketKeys(nodes, p) <==> k in Bucket(nodes, p)
    ensures Distinct(BucketKeys(nodes, p))
  {
    BucketGroups(nodes, p);
    BucketKeysOf(nodes, p);
  }

  /** The last node joins the group of level `k` exactly when it lies below `p + [k]`. */
  lemma FilterBelowLast(nodes: seq<Node>, p: seq<nat>, k: nat)
    requires nodes != []
    ensures var n := nodes[|nodes| - 1];
      Filter(nodes, Below(p + [k])) == Filter(nodes[..|nodes| - 1], Below(p + [k]))
        + (if Under(p)(n) && n.order.value.levels[|p|] == k then [n] else [])
  {
    UnderIsBelow(p, nodes[|nodes| - 1], k);
  }

  /** One more node: the map and its keys as the loop of `getChildren` extends them. */
  lemma BucketStep(nodes: seq<Node>, p: seq<nat>, i: nat)
    requires i < |nodes|
    ensures var n := nodes[i];
      var b := Bucket(nodes[..i], p);
      var ks := BucketKeys(nodes[..i], p);
      if Under(p)(n) then
        var k := n.order.value.levels[|p|];
        && Bucket(nodes[..i + 1], p) == b[k := (if k in b then b[k] else []) + [n]]
        && BucketKeys(nodes[..i + 1], p) == (if k !in b then ks + [k] else ks)
      else
        Bucket(nodes[..i + 1], p) == b && BucketKeys(nodes[..i + 1], p) == ks
  {
    assert nodes[..i + 1][..i] == nodes[..i];
  }

  lemma {:induction false} BucketGroups(nodes: seq<Node>, p: seq<nat>)
    ensures forall k :: k in Bucket(nodes, p) <==> Filter(nodes, Below(p + [k])) != []
    ensures forall k :: k in Bucket(nodes, p) ==> Bucket(nodes, p)[k] == Filter(nodes, Below(p + [k]))
    decreases |nodes|
  {
    if nodes != [] {
      var init := nodes[..|nodes| - 1];
      BucketGroups(init, p);
      forall k
        ensures k in Bucket(nodes, p) <==> Filter(nodes, Below(p + [k])) != []
        ensures k in Bucket(nodes, p) ==> Bucket(nodes, p)[k] == Filter(nodes, Below(p + [k]))
      {
        FilterBelowLast(nodes, p, k);
      }
    }
  }

  lemma {:induction false} BucketKeysOf(nodes: seq<Node>, p: seq<nat>)
    ensures forall k :: k in BucketKeys(nodes, p) <==> k in Bucket(nodes, p)
    ensures Distinct(BucketKeys(nodes, p))
    decreases |nodes|
  {
    if nodes != [] {
      var init := nodes[..|nodes| - 1];
      BucketKeysOf(init, p);
      var ks := BucketKeys(init, p);
      var n := nodes[|nodes| - 1];
      if Under(p)(n) && n.order.value.levels[|p|] !in Bucket(init, p) {
        var k := n.order.value.levels[|p|];
        var r := ks + [k];
        assert BucketKeys(nodes, p) == r;
        forall i, j | 0 <= i < j < |r| ensures r[i] != r[j] {
          if j == |ks| {
            assert r[i] == ks[i];
          } else {
            assert r[i] == ks[i] && r[j] == ks[j];
          }
        }
      }
    }
  }

  /** The items at `ks` are the group items of those keys, in that order. */
  lemma {:induction false} GroupItemsAt(b: map<nat, seq<Node>>, ks: seq<nat>, p: seq<nat>, depth: nat, feature: string)
    ensures forall i :: 0 <= i < |ks| ==>
      GroupItems(b, ks, p, depth, feature)[i] == GroupItem(if ks[i] in b then b[ks[i]] else [], p, ks[i], depth, feature)
    decreases |ks|
  {
    if ks != [] {
      GroupItemsAt(b, ks[..|ks| - 1], p, depth, feature);
    }
  }

  /** The next levels are ascending, and they are the keys of the groups. */
  lemma NextLevelsIncreasing(nodes: seq<Node>, p: seq<nat>)
    ensures Increasing(NextLevels(nodes, p))
    ensures forall k :: k in NextLevels(nodes, p) <==> k in Bucket(nodes, p)
  {
    var ks := BucketKeys(nodes, p);
    BucketAt(nodes, p);
    SortNatsSorted(ks);
    forall k ensures k in NextLevels(nodes, p) <==> k in ks {
      assert k in NextLevels(nodes, p) <==> k in multiset(NextLevels(nodes, p));
      assert k in ks <==> k in multiset(ks);
    }
  }

  /** A level is a next level under `p` exactly when some step's levels start with `p` and that level. */
  lemma NextLevelsExact(nodes: seq<Node>, p: seq<nat>)
    ensures forall k :: k in NextLevels(nodes, p) <==> exists n :: n in nodes && Below(p + [k])(n)
  {
    NextLevelsIncreasing(nodes, p);
    BucketAt(nodes, p);
    forall k ensures k in NextLevels(nodes, p) <==> exists n :: n in nodes && Below(p + [k])(n) {
      FilterMembers(nodes, Below(p + [k]));
      if k in NextLevels(nodes, p) {
        assert Filter(nodes, Below(p + [k]))[0] in Filter(nodes, Below(p + [k]));
      }
    }
  }

  /** Nothing is shown under `p` exactly when no step goes deeper than `p`. */
  lemma NextLevelsEmpty(nodes: seq<Node>, p: seq<nat>)
    ensures NextLevels(nodes, p) == [] <==> forall n :: n in nodes ==> !Under(p)(n)
  {
    NextLevelsExact(nodes, p);
    forall n | n in nodes && Under(p)(n) ensures n.order.value.levels[|p|] in NextLevels(nodes, p) {
      UnderIsBelow(p, n, n.order.value.levels[|p|]);
    }
    if NextLevels(nodes, p) != [] {
      var k := NextLevels(nodes, p)[0];
      var n :| n in nodes && Below(p + [k])(n);
      UnderIsBelow(p, n, k);
    }
  }

  /** Every group item is a level item at `depth` whose path is `p` and its key. */
  lemma {:induction false} GroupItemsShape(b: map<nat, seq<Node>>, ks: seq<nat>, p: seq<nat>, depth: nat, feature: string)
    ensures forall i :: 0 <= i < |ks| ==>
      var g := GroupItems(b, ks, p, depth, feature)[i];
      g.kind == LevelKind && g.feature == feature && g.path == Some(p + [ks[i]]) && g.depth == Some(depth)
    decreases |ks|
  {
    if ks != [] {
      GroupItemsShape(b, ks[..|ks| - 1], p, depth, feature);
    }
  }

  /** The group of the `i`-th next level gathers exactly the steps whose levels start with `p` and that level. */
  lemma GroupsAt(nodes: seq<Node>, p: seq<nat>, depth: nat, feature: string)
    ensures |Groups(nodes, p, depth, feature)| == |NextLevels(nodes, p)|
    ensures forall i :: 0 <= i < |NextLevels(nodes, p)| ==>
      Groups(nodes, p, depth, feature)[i] ==
        GroupItem(Filter(nodes, Below(p + [NextLevels(nodes, p)[i]])), p, NextLevels(nodes, p)[i], depth, feature)
  {
    NextLevelsIncreasing(nodes, p);
    BucketAt(nodes, p);
    GroupItemsAt(Bucket(nodes, p), NextLevels(nodes, p), p, depth, feature);
  }

  /** A group shows an expander exactly when expanding it shows something. */
  lemma CollapsibleIffChildren(nodes: seq<Node>, p: seq<nat>, depth: nat, feature: string, i: nat)
    requires i < |NextLevels(nodes, p)|
    ensures |Groups(nodes, p, depth, feature)| == |NextLevels(nodes, p)|
    ensures Groups(nodes, p, depth, feature)[i].collapsible == Collapsed <==>
      NextLevels(nodes, p + [NextLevels(nodes, p)[i]]) != []
  {
    GroupsAt(nodes, p, depth, feature);
    var q := p + [NextLevels(nodes, p)[i]];
    var m := Filter(nodes, Below(q));
    assert Groups(nodes, p, depth, feature)[i].collapsible == Collapsed <==> AnyLonger(m, |q|);
    DeeperMembers(nodes, q);
    NextLevelsEmpty(nodes, q);
  }

  /** Some step of the group at `q` goes deeper than `q` exactly when some step is under `q`. */
  lemma DeeperMembers(nodes: seq<Node>, q: seq<nat>)
    ensures AnyLonger(Filter(nodes, Below(q)), |q|) <==> exists n :: n in nodes && Under(q)(n)
  {
    var m := Filter(nodes, Below(q));
    FilterMembers(nodes, Below(q));
    FilterSatisfies(nodes, Below(q));
    if AnyLonger(m, |q|) {
      var j :| 0 <= j < |m| && LevelCount(m[j]) > |q|;
      assert m[j] in nodes && Under(q)(m[j]);
    }
    if exists n :: n in nodes && Under(q)(n) {
      var n :| n in nodes && Under(q)(n);
      assert Below(q)(n);
      assert n in m;
      var j :| 0 <= j < |m| && m[j] == n;
      assert LevelCount(m[j]) > |q|;
    }
  }

  /** Expanding the group of level `k` under `p` shows the groups under `p + [k]`, one level deeper. */
  lemma ExpandGroup(view: Option<GraphView>, feature: string, p: seq<nat>, depth: nat, i: nat)
    requires view.Some? && view.value.keys != [] && feature in view.value.contents
    requires depth != 0
    requires i < |NextLevels(view.value.contents[feature], p)|
    ensures |Groups(view.value.contents[feature], p, depth, feature)| == |NextLevels(view.value.contents[feature], p)|
    ensures Children(view, Some(Groups(view.value.contents[feature], p, depth, feature)[i])) ==
      Groups(view.value.contents[feature], p + [NextLevels(view.value.contents[feature], p)[i]], depth + 1, feature)
  {
    var nodes := view.value.contents[feature];
    GroupItemsShape(Bucket(nodes, p), NextLevels(nodes, p), p, depth, feature);
  }

  /** A level item sits at the depth of its path, which is not empty. */
  predicate WellPlaced(e: FlowTreeItem) {
    e.kind == LevelKind ==> e.path.Some? && e.path.value != [] && e.depth == Some(|e.path.value|)
  }

  predicate AllWellPlaced(items: seq<FlowTreeItem>) {
    forall i :: 0 <= i < |items| ==> WellPlaced(items[i])
  }

  lemma AppendWellPlaced(a: seq<FlowTreeItem>, b: seq<FlowTreeItem>)
    requires AllWellPlaced(a) && AllWellPlaced(b)
    ensures AllWellPlaced(a + b)
  {
    forall i | 0 <= i < |a + b| ensures WellPlaced((a + b)[i]) {
      if i >= |a| {
        assert (a + b)[i] == b[i - |a|];
      }
    }
  }

  lemma {:induction false} RoleItemsWellPlaced(nodes: seq<Node>, role: Role, feature: string)
    ensures AllWellPlaced(RoleItems(nodes, role, feature))
    decreases |nodes|
  {
    if nodes != [] {
      RoleItemsWellPlaced(nodes[..|nodes| - 1], role, feature);
      var n := nodes[|nodes| - 1];
      AppendWellPlaced(RoleItems(nodes[..|nodes| - 1], role, feature), if n.role == role then [NodeItem(n, role, feature)] else []);
    }
  }

  /** Groups under `p` made at depth `|p| + 1` are well placed. */
  lemma GroupsWellPlaced(nodes: seq<Node>, p: seq<nat>, feature: string)
    ensures AllWellPlaced(Groups(nodes, p, |p| + 1, feature))
  {
    GroupItemsShape(Bucket(nodes, p), NextLevels(nodes, p), p, |p| + 1, feature);
  }

  /** Every item the tree shows under a well-placed item (or at the root) is well placed. */
  lemma ChildrenWellPlaced(view: Option<GraphView>, element: Option<FlowTreeItem>)
    requires element.Some? ==> WellPlaced(element.value)
    ensures AllWellPlaced(Children(view, element))
  {
    if view.Some? && view.value.keys != [] {
      var c := view.value.contents;
      if element.None? {
        RootItemsAt(view.value.keys, c);
      } else if element.value.feature in c {
        var e := element.value;
        var nodes := c[e.feature];
        if e.kind == FeatureKind {
          assert Children(view, element) == FeatureChildren(nodes, e.feature);
          FeatureChildrenWellPlaced(nodes, e.feature);
        } else if e.kind == LevelKind {
          GroupsWellPlaced(nodes, PathOf(e), e.feature);
        }
      }
    }
  }

  /** The start items, the top-level groups and the end items of a feature are all well placed. */
  lemma FeatureChildrenWellPlaced(nodes: seq<Node>, feature: string)
    ensures AllWellPlaced(FeatureChildren(nodes, feature))
  {
    var starts := RoleItems(nodes, Start, feature);
    var groups := Groups(nodes, [], 1, feature);
    var ends := RoleItems(nodes, End, feature);
    RoleItemsWellPlaced(nodes, Start, feature);
    RoleItemsWellPlaced(nodes, End, feature);
    GroupsWellPlaced(nodes, [], feature);
    AppendThreeWellPlaced(starts, groups, ends);
  }

  lemma AppendThreeWellPlaced(a: seq<FlowTreeItem>, b: seq<FlowTreeItem>, c: seq<FlowTreeItem>)
    requires AllWellPlaced(a) && AllWellPlaced(b) && AllWellPlaced(c)
    ensures AllWellPlaced(a + b + c)
  {
    AppendWellPlaced(a, b);
    AppendWellPlaced(a + b, c);
  }
}
