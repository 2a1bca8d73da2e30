/**
  The records of the annotation engine: a parsed comment line (`Node`), the
  structural summary of one flow (`FeatureIssues`), and the two string keys
  derived from a node, the dotted order string and the node id.
*/
module Types {
  import opened Wrappers
  import opened Strings

  /**
    The kind of an annotation. The source's `Role` type lists only the first
    four; the parser nevertheless produces `'mark'` nodes, so the closed type
    here has all five.
  */
  datatype Role = Start | Step | End | Title | Mark

  function RoleName(r: Role): string {
    match r
    case Start => "start"
    case Step => "step"
    case End => "end"
    case Title => "title"
    case Mark => "mark"
  }

  /** The dotted step path, `2.3.1` as `[2, 3, 1]`. */
  datatype OrderParts = OrderParts(levels: seq<nat>)

  datatype Meta = Meta(desc: Option<string>, tags: Option<seq<string>>, title: Option<string>)

  datatype Node = Node(
    id: string,
    feature: string,
    role: Role,
    order: Option<OrderParts>,
    file: string,
    line: nat,
    meta: Option<Meta>)

  datatype OrderCount = OrderCount(order: string, count: nat)

  datatype FeatureIssues = FeatureIssues(
    missingStart: bool,
    missingEnd: bool,
    duplicateOrders: Option<seq<OrderCount>>)

  /** The decimal numerals of the levels, one per level. */
  function LevelStrings(levels: seq<nat>): (r: seq<string>)
    ensures |r| == |levels|
    ensures forall i :: 0 <= i < |levels| ==> r[i] == NatToString(levels[i])
  {
    if levels == [] then [] else [NatToString(levels[0])] + LevelStrings(levels[1..])
  }

  /** `levels.join('.')`. */
  function LevelsToString(levels: seq<nat>): string {
    Join(LevelStrings(levels), ".")
  }

  /** `orderToString`: empty for a missing order or one without levels, else the dotted path. */
  function OrderToString(order: Option<OrderParts>): (r: string)
    ensures r == "" <==> order.None? || order.value.levels == []
  {
    if order.None? || order.value.levels == [] then ""
    else
      var levels := order.value.levels;
      assert LevelsToString(levels) != "" by {
        var parts := LevelStrings(levels);
        if |parts| > 1 {
          assert |parts[0] + "." + Join(parts[1..], ".")| > 0;
        }
      }
      LevelsToString(levels)
  }

  /** A dotted path splits back into the numerals of its levels. */
  lemma SplitLevelsToString(levels: seq<nat>)
    requires levels != []
    ensures Split(LevelsToString(levels), '.') == LevelStrings(levels)
  {
    var parts := LevelStrings(levels);
    forall i | 0 <= i < |parts| ensures '.' !in parts[i] {
      NotInDigits(parts[i], '.');
    }
    SplitJoin(parts, '.');
  }

  /** Distinct non-empty paths have distinct order strings: duplicate detection by string is exact. */
  lemma LevelsToStringInjective(a: seq<nat>, b: seq<nat>)
    requires a != [] && b != []
    requires LevelsToString(a) == LevelsToString(b)
    ensures a == b
  {
    SplitLevelsToString(a);
    SplitLevelsToString(b);
    var sa, sb := LevelStrings(a), LevelStrings(b);
    assert |a| == |b|;
    forall i | 0 <= i < |a| ensures a[i] == b[i] {
      assert sa[i] == sb[i];
      NatToStringInjective(a[i], b[i]);
    }
  }

  /** The five fields of a node id, in order. */
  function IdFields(feature: string, role: Role, order: Option<OrderParts>, file: string, line: nat): seq<string> {
    [feature, RoleName(role), OrderToString(order), file, NatToString(line)]
  }

  /** `createNodeId`: the template `feature|role|order|file|line`, the five fields with `|` between them. */
  function CreateNodeId(feature: string, role: Role, order: Option<OrderParts>, file: string, line: nat): string {
    Join(IdFields(feature, role, order, file, line), "|")
  }

  /** The five fields can be read back from an id when neither the feature nor the file contains `|`. */
  lemma NodeIdFields(feature: string, role: Role, order: Option<OrderParts>, file: string, line: nat)
    requires '|' !in feature && '|' !in file
    ensures Split(CreateNodeId(feature, role, order, file, line), '|') == IdFields(feature, role, order, file, line)
  {
    NoBarInFields(feature, role, order, file, line);
    SplitJoin(IdFields(feature, role, order, file, line), '|');
  }

  lemma NoBarInFields(feature: string, role: Role, order: Option<OrderParts>, file: string, line: nat)
    requires '|' !in feature && '|' !in file
    ensures forall i :: 0 <= i < 5 ==> '|' !in IdFields(feature, role, order, file, line)[i]
  {
    NoBarInLevels(if order.Some? then order.value.levels else []);
    NotInDigits(NatToString(line), '|');
  }

  lemma {:induction false} NoBarInLevels(levels: seq<nat>)
    ensures '|' !in LevelsToString(levels)
    decreases |levels|
  {
    var parts := LevelStrings(levels);
    if |parts| >= 1 {
      NotInDigits(parts[0], '|');
    }
    if |parts| > 1 {
      NoBarInLevels(levels[1..]);
      assert LevelStrings(levels[1..]) == parts[1..];
    }
  }

  /** A missing order and an order with no levels give the same id. */
  lemma AbsentAndEmptyOrderSameId(feature: string, role: Role, file: string, line: nat)
    ensures CreateNodeId(feature, role, None, file, line) == CreateNodeId(feature, role, Some(OrderParts([])), file, line)
  {
  }
}
