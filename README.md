# Flow comments annotation engine, in Dafny

This project models the annotation engine of the *vscode-flow-comments*
extension. Developers mark a feature's control flow with comments such as:

- `// flow-Auth start`
- `// flow-Auth 1.2 check the token`
- `// flow-Auth end`

The engine turns such lines into nodes (feature, role, dotted order, desc)
and sorts each feature's nodes by role and order. It keeps a graph of
features up to date file by file and reports missing or repeated starts,
ends and orders. It also shows the graph as a tree of features, start and
end nodes, and nested level groups.

The modules:

- `Types` (types.dfy): nodes, roles (with the `mark` role the parser emits),
  order strings and node ids.
- `Strings`, `Seqs`: the string and array primitives the source relies on.
  These are white space as JavaScript's `\s` sees it, ASCII case folding,
  `indexOf`, `split`, `join`, `trim`, the decimal value of a digit run (what
  `Number()` gives for values below 2^53), and `filter`.
- `Parser`, `TextParser` (parser.dfy), `ParserFacts`: `parseOrder`, `parseLine`
  and `parseText`. Each regular expression of the source is written as an
  explicit matcher that tries candidate positions in the backtracking order of
  the regular expression, so greedy and lazy groups split a line as the source
  does.
- `Text`: `prefixIndex`.
- `Sort`: `roleWeight`, `compareOrder`, `compareNodes`, and the in-place sort
  of one feature and of the whole graph. `Array.prototype.sort` is modelled as
  an insertion sort over an `array`.
- `Graphs`: the graph as a class. It holds a map from feature name to a
  `FeatureGraph` object whose `nodes` and `issues` fields are updated in place.
  Its feature names are kept in insertion order.
- `Validator` (indexer.dfy): `computeFeatureIssues`.
- `Indexer` (update.dfy), `MergeFacts`: `updateGraphForFile` and what it
  guarantees.
- `Scan`: the per-file prefilter and the fold of a scan's nodes into a fresh
  graph.
- `Cache`: the in-memory `IndexCache`, the comment-hash payload, and the list
  step of `upsertPersistentEntry`.
- `Tree`: `FlowTreeProvider.getChildren` with its labels and tooltips.
- `*Examples` modules: the repository's own test cases, stated over the model.

## Model

| member | source | states |
|---|---|---|
| Types.OrderToString | src/models/types.ts:41-46 | the order string is empty exactly when the order is absent or has no levels |
| Types.LevelStrings | src/models/types.ts:45 | one decimal numeral per level, in level order |
| Types.SplitLevelsToString | src/models/types.ts:45 | splitting a non-empty order string at `.` gives back each level's numeral |
| Types.LevelsToStringInjective | src/models/types.ts:45 | distinct non-empty level sequences have distinct order strings, which duplicate detection relies on |
| Types.NodeIdFields | src/models/types.ts:48-57 | when feature and file hold no `\|`, the id splits at `\|` into exactly feature, role, order string, file and line |
| Types.NoBarInLevels | src/models/types.ts:45 | an order string never holds `\|` |
| Types.AbsentAndEmptyOrderSameId | src/models/types.ts:41-57 | an absent order and an order with no levels give the same id |
| Text.PrefixIndex | src/utils/text.ts:1-5 | the first `prefix-` whenever one occurs; otherwise the index of the first `prefix -`; -1 exactly when neither occurs; a non-negative result is where `prefix` occurs |
| Strings.AsciiLower | src/utils/parser.ts:96 | lower-casing keeps the length and folds each ASCII capital, leaving every other character alone |
| Strings.Trim | src/utils/parser.ts:68-70 | the result is a slice with only white space cut away on both sides, and it neither starts nor ends with white space |
| Strings.TrimUnique | src/utils/parser.ts:95-97 | any slice that has only white space outside it and starts and ends with non-space is the trimmed string |
| Strings.IndexOf | src/utils/text.ts:2-3 | -1 exactly when the pattern occurs nowhere; otherwise the first place it occurs |
| Strings.NatToString | src/models/types.ts:45 | a non-empty digit string without a leading zero unless the value is 0 |
| Strings.DecimalValueOfNatToString | src/utils/parser.ts:37 | reading back a printed number gives the number |
| Strings.NatToStringInjective | src/models/types.ts:45 | different numbers print differently |
| Strings.DecimalValueLeadingZero | src/utils/parser.ts:37 | a leading zero does not change a numeral's value, so `001` reads as 1 |
| Strings.SplitJoin | src/utils/parser.ts:37 | splitting parts joined by a separator they do not hold gives the parts back |
| Parser.FirstMatch | src/utils/parser.ts:7 | the first candidate position (in backtracking order) whose matcher succeeds, and none exactly when none succeeds |
| Parser.PreambleAfterKeyword | src/utils/parser.ts:7 | every candidate end of `^\s*(?:styles)\s*prefix-` comes right after the keyword, in any case |
| Parser.LastHyphen | src/utils/parser.ts:15 | the last hyphen in a range, or none exactly when the range holds no hyphen |
| Parser.TitleAt | src/utils/parser.ts:15 | a title match has a solid feature not starting with `-`, and a tail that starts with a non-space and holds no line break |
| Parser.KindAt | src/utils/parser.ts:7 | a kind match is `start`, `end` (any case) or a dotted digit token, and the rest starts with a non-space |
| Parser.OrderedAt | src/utils/parser.ts:7 | the lazy feature search only yields well-formed kinds and rests |
| Parser.NoOrderAt | src/utils/parser.ts:30 | the no-order match has a non-empty solid feature |
| Parser.SegmentValues | src/utils/parser.ts:37 | the exact decimal value of each digit segment, one per segment |
| Parser.ParseOrder | src/utils/parser.ts:33-42 | none exactly for the empty token; otherwise one level per `.`-segment, each the decimal value of its segment |
| Parser.KindIsDigits | src/utils/parser.ts:96-104 | a kind that is neither `start` nor `end` lower-cases to a non-empty dotted digit token |
| Parser.TitleNode | src/utils/parser.ts:67-77 | a title node without an order, whose id, file and line are those of the line |
| Parser.OrderedNode | src/utils/parser.ts:95-109 | start, step or end; only a step carries an order, and it is non-empty; meta is the trimmed desc, absent exactly when that is empty |
| Parser.NoOrderNode | src/utils/parser.ts:83-91 | an unordered step whose id, file and line are those of the line |
| Parser.TitleLine | src/utils/parser.ts:65-77 | the title syntax yields title nodes only |
| Parser.OrderedLine | src/utils/parser.ts:79-80 | the ordered syntax yields start, step or end nodes |
| Parser.NoOrderLine | src/utils/parser.ts:83-93 | the fallback yields unordered steps only |
| Parser.ParseLine | src/utils/parser.ts:63-110 | title, then ordered, then no-order syntax; any node is start, step, end or title, with the line's file, number and id |
| Parser.ParseLineNeedsKeyword | src/utils/parser.ts:63-110 | a line that parses holds `prefix-` in some case |
| Parser.MarkNode | src/utils/parser.ts:122-130 | a mark is a `MARK` node without an order, on this line of this file |
| Parser.LineNode | src/utils/parser.ts:116-130 | a line gives a mark only when `parseLine` gave nothing |
| Parser.LineResultsAt | src/utils/parser.ts:115-117 | result `m` is the outcome of line `m` numbered `m + 1` |
| Parser.LineResultsNumbered | src/utils/parser.ts:117 | every node carries the number of its line, counting from 1 |
| Parser.PresentFromLines | src/utils/parser.ts:118-129 | at most one node per line, and each collected node is what its line gave |
| Parser.PresentIncreasing | src/utils/parser.ts:115-131 | collected nodes come in strictly increasing line order |
| Parser.PresentComplete | src/utils/parser.ts:115-131 | every line that gave a node contributes it |
| TextParser.ParseText | src/utils/parser.ts:112-133 | the loop collects exactly the per-line results, in line order |
| TextParser.ParseLines | src/utils/parser.ts:115-131 | the line loop with its `continue`, proved equal to the per-line results |
| ParserFacts.WordLineParses | src/utils/parser.ts:95-102 | `// flow-<feature> start\|end <desc>` in any spacing and case gives a start or end node of that feature, no order, meta the trimmed desc or absent |
| ParserFacts.StepLineParses | src/utils/parser.ts:103-108 | `// flow-<feature> <digits(.digits)*><rest>` gives a step ordered by the token's values, and a tail like `.a` stays in the desc |
| ParserFacts.TitleLineParses | src/utils/parser.ts:64-77 | `// flow-<feature>-<title> <desc>` gives a title node with that title and desc, ahead of the other syntaxes |
| ParserFacts.NoOrderLineParses | src/utils/parser.ts:81-92 | `// flow-<feature> <word>` with a word that is no kind gives an unordered step whose desc is the word |
| ParserFacts.MarkLineParses | src/utils/parser.ts:122-130 | a mark line without `prefix-` gives a `MARK` node whose meta is the trimmed desc or absent |
| ParserFacts.OrderRoundTrip | src/utils/parser.ts:33-42 | parsing the order string of a non-empty path gives the path back |
| ParserExamples.StartLine | src/test/parser.test.ts:5-12 | `// flow-Auth start 初始化` is a start node of `Auth` without an order, desc `初始化` |
| ParserExamples.EndLine | src/test/parser.test.ts:14-21 | `// flow-支付 end 收尾` is an end node of `支付` without an order, desc `收尾` |
| ParserExamples.StepLevelsLine | src/test/parser.test.ts:23-30 | `// flow-订单 1.2.3 参数校验` is a step of `订单` with levels 1, 2, 3 and desc `参数校验` |
| ParserExamples.NoGapLine | src/test/parser.test.ts:32-36 | `//flow-Feat 2 描述` is a step of `Feat` with the one level 2 |
| ParserExamples.WideGapLine | src/test/parser.test.ts:37-40 | `//  flow-Feat    2    多空格` is a step of `Feat` with the one level 2 |
| ParserExamples.LeadingZeroLine | src/test/parser.test.ts:43-47 | `// flow-Feat 001.02 前导零` has the levels 1, 2 |
| ParserExamples.BrokenTailLine | src/test/parser.test.ts:49-54 | `// flow-Feat 1.a 不合法` is a step with the one level 1 whose desc is `.a 不合法` |
| ParserExamples.SplitJoinedLines | src/utils/parser.ts:114 | lines without line breaks, joined by `\n`, split back into the same lines |
| ParserExamples.FiveLineText | src/test/parser.test.ts:59-71 | the five-line text gives three nodes, a start, a step and an end, from lines 2, 3 and 5 |
| Sort.RoleWeight | src/utils/sort.ts:3-11 | start weighs 0, step 1, everything else 2 |
| Sort.CompareOrder | src/utils/sort.ts:13-40 | the index loop with early returns computes the order comparison: 0 when either order is absent, else level by level |
| Sort.FirstDifferenceDecides | src/utils/sort.ts:26-38 | the first differing level decides, by its difference |
| Sort.PrefixFirst | src/utils/sort.ts:29-34 | a strict prefix sorts before its extensions |
| Sort.LevelsCompareAntisymmetric | src/utils/sort.ts:26-39 | swapping the arguments negates the comparison |
| Sort.LevelsCompareZero | src/utils/sort.ts:26-39 | two level lists compare equal exactly when they are equal |
| Sort.LevelsCompareTransitive | src/utils/sort.ts:26-39 | the level comparison is transitive |
| Sort.CompareNodesAntisymmetric | src/utils/sort.ts:42-51 | swapping the nodes negates the comparison |
| Sort.RoleDecidesFirst | src/utils/sort.ts:42-46 | a lighter role sorts first whatever the orders |
| Sort.CompareNodesZero | src/utils/sort.ts:42-51 | when every step has an order, nodes tie exactly when their weights match and, for steps, their levels match |
| Sort.CompareNodesTransitive | src/utils/sort.ts:42-51 | when every step has an order, the comparator is transitive (in its strict and non-strict forms) |
| Sort.UnorderedStepBreaksTransitivity | src/utils/sort.ts:14-22 | with an unordered step, `[2]` ties with it and it ties with `[1]`, yet `[2]` sorts after `[1]` |
| Sort.InsertionSortPermutation | src/utils/sort.ts:54 | the sort is a permutation of its input |
| Sort.InsertionSortAscending | src/utils/sort.ts:54 | no node is followed by a node it sorts after |
| Sort.InsertionSortIdempotent | src/utils/sort.ts:54 | sorting a sorted list changes nothing |
| Sort.InsertionSortSorted | src/utils/sort.ts:54 | when every step has an order, each node compares at most 0 with every later node |
| Sort.InsertionSortStable | src/utils/sort.ts:54 | when every step has an order, nodes that tie keep their relative order |
| Sort.SortInPlace | src/utils/sort.ts:54 | the in-place array sort leaves the array equal to the insertion sort of its old contents |
| Sort.InsertAt | src/utils/sort.ts:54 | one pass moves element `i` into place among the sorted prefix and leaves the rest alone |
| Sort.SortFeatureGraph | src/utils/sort.ts:53-56 | returns the same object, with its nodes sorted and its issues untouched |
| Sort.SortAll | src/utils/sort.ts:58-61 | the sorted graph has the same features |
| Sort.SortGraph | src/utils/sort.ts:58-61 | every feature's nodes are sorted, issues and feature names unchanged, and the same graph is returned |
| SortExamples.RoleAndOrderSort | src/test/sort.test.ts:6-23 | `[1,2], end, start, [1,1], [1]` sorts to `start, [1], [1,1], [1,2], end` |
| SortExamples.EqualOrdersKeepPlace | src/test/sort.test.ts:25-39 | start, two steps `[2]`, end stays as it is |
| Validator.IssuesOf | src/indexer/workspaceIndexer.ts:144-167 | `missingStart` exactly when there is not exactly one start, `missingEnd` likewise for ends, and duplicate orders absent rather than empty |
| Validator.ComputeFeatureIssues | src/indexer/workspaceIndexer.ts:144-167 | the counting loops compute the issues of the feature's nodes |
| Validator.CountOrders | src/indexer/workspaceIndexer.ts:147-155 | the `Map` of counts holds each non-empty order string of a step with its count, keys in first-occurrence order |
| Validator.CollectDuplicates | src/indexer/workspaceIndexer.ts:156-161 | the `forEach` keeps the keys whose count exceeds 1, in key order |
| Validator.CountsAreMultiplicities | src/indexer/workspaceIndexer.ts:147-155 | each counted key's count is its number of occurrences |
| Validator.StepKeysCount | src/indexer/workspaceIndexer.ts:148-154 | an order string is counted once per step that carries it, and the empty string never |
| Validator.DuplicatesExact | src/indexer/workspaceIndexer.ts:156-161 | exactly the keys counted more than once are listed, each once, with its count |
| Validator.DuplicateOrdersExact | src/indexer/workspaceIndexer.ts:147-165 | the listed orders are exactly the non-empty order strings shared by several steps, with their counts, each once; absent exactly when there are none |
| Validator.UncountedNodeIgnored | src/indexer/workspaceIndexer.ts:145-154 | adding a node that is no start, no end and no ordered step changes no issue |
| Validator.IssuesUnderPermutation | src/indexer/workspaceIndexer.ts:144-167 | reordering the nodes keeps both flags and the repeated orders with their counts |
| ValidatorExamples.OrderStrings | src/models/types.ts:41-46 | `[1]` prints as `1` and `[2,3]` as `2.3` |
| ValidatorExamples.DuplicateStepsWithoutStart | src/test/validator.test.ts:6-31 | two steps `[1]` and an end: start missing, end present, order `1` twice |
| ValidatorExamples.TwoStartsStillMissing | src/test/validator.test.ts:22-26 | two starts count as a missing start |
| ValidatorExamples.NoEndMissing | src/test/validator.test.ts:27-30 | without an end, the end is missing |
| ValidatorExamples.NestedDuplicate | src/test/validator.test.ts:33-49 | an unordered step is ignored and `2.3` twice is reported |
| Graphs.WithoutFacts | src/indexer/workspaceIndexer.ts:127 | deleting a feature name keeps the others, each once |
| Graphs.Graph.constructor | src/indexer/workspaceIndexer.ts:51 | a new graph has no features |
| Graphs.FeatureGraph.constructor | src/indexer/workspaceIndexer.ts:133 | a new feature entry has the given feature and nodes and no issues |
| Graphs.Graph.SetNodes | src/indexer/workspaceIndexer.ts:125 | reassigns one feature's nodes, nothing else |
| Graphs.Graph.SetIssues | src/indexer/workspaceIndexer.ts:139 | reassigns one feature's issues, nothing else |
| Graphs.Graph.Delete | src/indexer/workspaceIndexer.ts:127 | removes one feature and its name, nothing else |
| Graphs.Graph.Put | src/indexer/workspaceIndexer.ts:133 | adds one new feature, its name last |
| Indexer.UpdateGraphForFile | src/indexer/workspaceIndexer.ts:122-142 | the same graph afterwards holds the merge of the old contents with the file's nodes, sorted; each feature's issues are those of its merged nodes; names follow the merge |
| Indexer.RemoveFileNodes | src/indexer/workspaceIndexer.ts:124-129 | every node of the file is dropped, and features left empty are deleted |
| Indexer.RemoveAt | src/indexer/workspaceIndexer.ts:125-128 | one turn of the removal loop filters one feature and deletes it when empty |
| Indexer.AddNodes | src/indexer/workspaceIndexer.ts:131-136 | each new node is appended to its feature, creating the feature when missing |
| Indexer.AppendNode | src/indexer/workspaceIndexer.ts:132-135 | one node appended to its feature |
| Indexer.EnsureFeature | src/indexer/workspaceIndexer.ts:132-134 | a missing feature is created empty; an existing one is left alone |
| Indexer.RecomputeIssues | src/indexer/workspaceIndexer.ts:138-140 | every feature's issues become those of its nodes; nodes unchanged |
| Indexer.IssuesAt | src/indexer/workspaceIndexer.ts:139 | one turn of the issue loop sets one feature's issues |
| MergeFacts.AddAllAt | src/indexer/workspaceIndexer.ts:131-136 | after appending, a feature exists exactly when it existed or gets new nodes, and holds its old nodes then the new ones in order |
| MergeFacts.RemoveFileAt | src/indexer/workspaceIndexer.ts:124-129 | after removal, a feature exists exactly when nodes from other files remain, and holds exactly those |
| MergeFacts.MergedAt | src/indexer/workspaceIndexer.ts:122-136 | after the merge, a feature holds its nodes from other files followed by the file's new nodes of that feature |
| MergeFacts.FinalAt | src/indexer/workspaceIndexer.ts:122-142 | the final list of a feature is the sort of its kept and new nodes |
| MergeFacts.FileNodesReplaced | src/indexer/workspaceIndexer.ts:124-136 | afterwards a feature's nodes from the file are exactly the new ones, and its nodes from other files are exactly the old ones (as multisets) |
| MergeFacts.MergedWellFormed | src/indexer/workspaceIndexer.ts:126-135 | every feature entry is non-empty and every node in it belongs to that feature |
| MergeFacts.FinalWellFiled | src/indexer/workspaceIndexer.ts:126-135 | the same, for one feature |
| MergeFacts.IssuesMatchFinal | src/indexer/workspaceIndexer.ts:138-141 | each feature's issues agree with those of its final, sorted nodes on both flags and on the repeated orders with their counts |
| MergeFacts.UpdateIdempotent | src/indexer/workspaceIndexer.ts:122-142 | applying the same file update twice leaves the same feature map as applying it once |
| MergeFacts.UpdateKeysIdempotent | src/indexer/workspaceIndexer.ts:122-142 | and the same feature names in the same order |
| MergeFacts.UpdateIssuesIdempotent | src/indexer/workspaceIndexer.ts:138-141 | and the same issues, up to the listing order of repeated orders |
| UpdateExamples.RecomputedAfterUpdate | src/test/indexer.test.ts:6-24 | replacing start, end with `[1]`, `[1]`, end from the same file reports a missing start, no missing end and order `1` twice |
| Scan.Candidates | src/indexer/workspaceIndexer.ts:67 | for each comment style, `<style> <prefix>-` then `<style><prefix>-` |
| Scan.AnyOccursExactly | src/indexer/workspaceIndexer.ts:68 | the prefilter passes exactly when some candidate occurs in the text |
| Scan.QuickCheckMissesSpacedLine | src/indexer/workspaceIndexer.ts:67-68 | a file whose one line `//  flow-Feat 2` parses to a node is nevertheless skipped |
| Scan.SpacedWorkspace | src/indexer/workspaceIndexer.ts:66-71 | a workspace whose one file holds `//  flow-Feat 2` collects nothing with the prefilter as written, and that file's step with the corrected one |
| Scan.QuickCheckCorrectedSound | src/indexer/workspaceIndexer.ts:66-71 | the corrected prefilter passes every file holding a line that parses |
| Scan.ScanFileKeepsFlowNodes | src/indexer/workspaceIndexer.ts:66-74 | with the corrected prefilter, a file contributes either nothing or all its parsed nodes, and all of them whenever a line parses |
| Scan.AddAllAppend | src/indexer/workspaceIndexer.ts:79-84 | folding two batches one after the other is folding them together |
| Scan.BuildGraph | src/indexer/workspaceIndexer.ts:51-118 | under the chosen prefilter (`AsWritten`, the program's, or `Corrected`), a fresh graph holding every scanned node under its feature, sorted, with the issues of each feature |
| Scan.FoldFiles | src/indexer/workspaceIndexer.ts:54-89 | the file loop folds the nodes of every file that passes the chosen prefilter, in file order |
| Scan.ScanInto | src/indexer/workspaceIndexer.ts:66-84 | one file's nodes under the chosen prefilter appended to their features |
| Scan.ScanText | src/indexer/workspaceIndexer.ts:66-74 | a file is parsed only when it passes the chosen prefilter; `AsWritten` applies the candidates of lines 67-68 |
| Scan.ScanGroups | src/indexer/workspaceIndexer.ts:79-84 | under either prefilter, a feature exists after the scan exactly when some scanned node names it, and it holds exactly those nodes, sorted |
| Cache.IndexCache.constructor | src/indexer/cache.ts:11 | a new cache is empty |
| Cache.IndexCache.Get | src/indexer/cache.ts:13 | an entry exactly for the files that were set |
| Cache.IndexCache.Set | src/indexer/cache.ts:14 | afterwards the file yields the entry and every other file what it yielded before |
| Cache.Payload | src/indexer/cache.ts:32-38 | one payload entry per node, in node order |
| Cache.PayloadOrderIsOrderString | src/indexer/cache.ts:35 | the payload's order is the node's order string |
| Cache.PayloadOfExactly | src/indexer/cache.ts:32-38 | two nodes have the same payload entry exactly when feature, role, order string, desc and joined tags agree |
| Cache.PayloadExactly | src/indexer/cache.ts:31-40 | two node lists have the same payload exactly when they agree on those fields node by node |
| Cache.RelabelledSameComment | src/indexer/cache.ts:32-38 | changing id, file, line or title changes none of those fields |
| Cache.CommentHashIgnoresPlace | src/indexer/cache.ts:31-40 | node lists differing only in ids, files, lines or titles have the same comment hash |
| Cache.FindIndex | src/indexer/cache.ts:99 | the first entry of the file, or -1 exactly when there is none |
| Cache.Upsert | src/indexer/cache.ts:99-104 | the file's first entry is replaced where it stands, or the entry appended when it has none; every other entry stays; the file then looks up the entry |
| Cache.UpsertLookupOther | src/indexer/cache.ts:97-105 | every other file looks up what it did before |
| Cache.UpsertIdempotent | src/indexer/cache.ts:97-105 | upserting the same entry twice is upserting it once |
| Tree.LabelFromDesc | src/tree/flowTreeProvider.ts:151-153 | a space and the desc when the desc is non-empty, else nothing |
| Tree.BuildTooltip | src/tree/flowTreeProvider.ts:155-164 | title (order string of a step, role otherwise), desc when present, and `file:line`, joined by ` — ` |
| Tree.TooltipTitleOfStep | src/tree/flowTreeProvider.ts:157 | a step's tooltip title is its order string |
| Tree.FindLength | src/tree/flowTreeProvider.ts:129 | the first member with exactly the given level count, and none exactly when no member has it |
| Tree.RootItems | src/tree/flowTreeProvider.ts:41-49 | one root item per feature |
| Tree.FlowTreeProvider.constructor | src/tree/flowTreeProvider.ts:25 | no graph at first |
| Tree.FlowTreeProvider.SetGraph | src/tree/flowTreeProvider.ts:27-30 | the tree shows the given graph |
| Tree.FlowTreeProvider.GetChildren | src/tree/flowTreeProvider.ts:34-148 | the children the tree specification gives; without graph or features the root is one "No data yet" item; otherwise one root item per feature, described by its node count |
| Tree.FlowTreeProvider.RootChildren | src/tree/flowTreeProvider.ts:40-49 | on a non-empty graph the root has one item per feature, in feature order, described by its node count |
| Tree.FlowTreeProvider.ElementChildren | src/tree/flowTreeProvider.ts:50-147 | an element of an unknown feature has no children; a feature item has its start items, level-1 groups and end items; a level item has the groups under its path |
| Tree.CollectRoots | src/tree/flowTreeProvider.ts:41-49 | the root loop yields the root items in feature order |
| Tree.CollectRoleItems | src/tree/flowTreeProvider.ts:59-70 | the start loop (and the end loop) yields the items of those nodes |
| Tree.CollectGroups | src/tree/flowTreeProvider.ts:114-143 | the grouping loops yield the groups under the path |
| Tree.RootItemsAt | src/tree/flowTreeProvider.ts:42-48 | root item `i` names feature `i`, described by its node count |
| Tree.RoleItemsAre | src/tree/flowTreeProvider.ts:59-70 | the start items are the items of the start nodes in node order, and the same for ends |
| Tree.SortNatsSorted | src/tree/flowTreeProvider.ts:82 | the distinct group keys sort to an ascending list holding each key once |
| Tree.UnderIsBelow | src/tree/flowTreeProvider.ts:116-121 | a step lies under `p` with next level `k` exactly when its levels start with `p` and then `k` |
| Tree.BucketAt | src/tree/flowTreeProvider.ts:116-126 | the group of level `k` exists exactly when some step's levels start with `p` and `k`, and holds exactly those steps in node order; keys listed once each |
| Tree.NextLevelsIncreasing | src/tree/flowTreeProvider.ts:127 | the group keys come in strictly ascending order |
| Tree.NextLevelsExact | src/tree/flowTreeProvider.ts:116-127 | a level is a group key exactly when some step's levels start with `p` and that level |
| Tree.NextLevelsEmpty | src/tree/flowTreeProvider.ts:116-126 | there are no groups exactly when no step goes deeper than `p` |
| Tree.GroupItemsShape | src/tree/flowTreeProvider.ts:133-135 | each group is a level item of the feature whose path is `p` plus its key, at the given depth |
| Tree.GroupsAt | src/tree/flowTreeProvider.ts:127-142 | group `i` is built from exactly the steps whose levels start with `p` and the `i`-th key |
| Tree.DeeperMembers | src/tree/flowTreeProvider.ts:130 | some member of a group is deeper than the group exactly when some step lies under the group's path |
| Tree.CollapsibleIffChildren | src/tree/flowTreeProvider.ts:129-133 | a group is collapsible exactly when expanding it shows some group |
| Tree.ExpandGroup | src/tree/flowTreeProvider.ts:113-143 | expanding a group shows the groups under its path, one level deeper |
| Tree.ChildrenWellPlaced | src/tree/flowTreeProvider.ts:34-148 | every level item shown has a non-empty path and a depth equal to the path's length |

## Left out

- I/O and the host are left out. This covers reading files, `findFiles`, the file size cap, the batched `Promise.all`, the error `catch`, `readAndHashFile`, `loadPersistentIndex` and `savePersistentIndex`. The scan takes the files as a list of path and text pairs, in the order the scan handles them.
- The persistent index diff and drop of the scan is left out, and so are the cache writes during a scan. These are the steps at workspaceIndexer.ts:98-117 and the `cache?.set` calls.
- Cache.CommentHash: sha1 over the JSON text is a parameter `hash`, so nothing is claimed about collisions.
- Cache.Upsert: `list` is a local array, changed in place and then saved. It is modelled as a value update of that list.
- The vscode wiring is left out: the tree change event fired by `setGraph`, `getTreeItem`, `vscode.Uri`, and the `Thenable` results. `buildRevealCommand` becomes a record holding the file path instead of a URI.
- Tree.FlowTreeProvider.GetChildren: requires a level element to carry a non-empty path. On a level element without one, the source reads `n.order!` of an unordered step and fails. Every level item the tree makes has a path (`Tree.ChildrenWellPlaced`), and the host only passes items back to the tree that the tree made.
- JavaScript object key order is left out. `Object.keys`/`Object.entries` list integer-like keys first. The model keeps feature names in insertion order.
- Feature names that are `Object.prototype` members are left out. For names such as `constructor`, `graph.features[name]` is inherited and not absent.
- Parser.ParseOrder: requires a dotted digit token, the only kind of string `parseLine` passes it. `Number()` on other strings is not modelled.
- Parser.ParseOrder: levels are exact naturals, which agree with the source's `Number()` only below 2^53. Above that, JavaScript doubles round: `9007199254740993` and `9007199254740992` both read as 9007199254740992, so two steps with these orders are duplicates in the source and not in the model. A segment of about 309 digits or more reads as `Infinity`, which `filter(Number.isFinite)` drops; a token all of whose segments overflow gives no order in the source, but one here.
- Parser.SegmentValues: exact decimal values; `Number()` agrees only below 2^53, as for `Parser.ParseOrder`.
- Types.LevelStrings: prints each level in decimal. `String(n)` agrees below 10^21 and prints larger levels in exponent form (`1e+21`) in order strings, ids and labels. With the rounding above 2^53, the model is exact for levels below 2^53.
- Strings.NatToString: decimal numerals for every natural, where JavaScript's `String()` switches to exponent form at 10^21.
- Text.PrefixIndex: indices count Unicode scalar values, Dafny's `char`. JavaScript's `indexOf` counts UTF-16 code units, so each character outside the Basic Multilingual Plane before the match adds one more to the source's index: `😀 flow-x` gives 3 there and 2 here. Whether the result is -1 is the same in both.
- Strings.IndexOf: indices count Unicode scalar values, not UTF-16 code units, as for `Text.PrefixIndex`.
- Strings.AsciiLower: the case-insensitive flag and `toLowerCase` are modelled on ASCII letters only. This is exact for the `start`/`end` keywords. Non-ASCII letters in a configured prefix or comment style fold differently in JavaScript.
- `parseMeta` (parser.ts:44-61) is never called and is not modelled.
- The expectation at src/test/parser.test.ts:55-56 that `// flow-Feat  描述缺少种类` gives null does not hold. The no-order syntax matches that line, and `ParserFacts.NoOrderLineParses` gives an unordered step with that desc.
- MergeFacts.IssuesMatchFinal: issues are computed before the sort, so `duplicateOrders` lists repeated orders in the order of the unsorted merged list. The model states agreement with the issues of the final list up to that listing order.
- MergeFacts.UpdateIdempotent: requires that the nodes given for the file come from that file, as `parseText` of that file guarantees. With foreign nodes the second update would add them twice.
- Sort.InsertionSort: `Array.prototype.sort` does not fix an algorithm. Insertion sort is one stable sort. When every step has an order, every stable sort gives the same result, so `Sort.InsertionSortSorted` and `Sort.InsertionSortStable` then hold of the source. With unordered steps the comparator is not transitive, and the result of the source's sort depends on the engine.
- The scan is stated for both prefilters (`Scan.Prefilter`): `AsWritten` is workspaceIndexer.ts:67-68 as written, and `Corrected` is the fix of the finding below. A file that holds only mark comments is skipped by both, as in the source.
- The `markListProvider`, completion, diagnostics, highlights and commands are outside this model.

## Findings

| source | as written | input that shows it | evidently intended | confidence | as-written member | corrected member |
|---|---|---|---|---|---|---|
| src/indexer/workspaceIndexer.ts:67-68 | a file is parsed only if it contains `<style> <prefix>-` or `<style><prefix>-` exactly (case and spacing) | a file holding `//  flow-Feat 2` (two spaces, a form the parser's own tests accept) parses to a node yet is skipped; so is `// FLOW-Feat 2` | every file that holds an annotation the parser accepts is parsed | not executed | Scan.QuickCheckMissesSpacedLine | Scan.QuickCheckCorrectedSound |
