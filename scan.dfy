/**
  The pure pieces of `scanWorkspace` (src/indexer/workspaceIndexer.ts:41-119):
  the quick text check that decides whether a file is parsed at all, and
  the fold of every file's nodes into features.
*/
module Scan {
  import opened Wrappers
  import opened Strings
  import opened Types
  import opened Seqs
  import opened Parser
  import opened ParserFacts
  import opened Graphs
  import opened Sort
  import opened Validator
  import opened Indexer
  import opened MergeFacts
  import opened TextParser

  /** What `parseText` returns for a file's text. */
  function FileNodes(text: string, file: string, prefix: string, styles: seq<string>, markPrefix: string): seq<Node> {
    var lines := SplitLines(text);
    Present(LineResults(lines, file, prefix, styles, markPrefix, |lines|))
  }

  // ---------------------------------------------------------------------
  // The quick check, as written

  /** `styles.flatMap(s => [s + ' ' + prefix + '-', s + prefix + '-'])`. */
  function Candidates(prefix: string, styles: seq<string>): (r: seq<string>)
    ensures |r| == 2 * |styles|
    ensures forall i :: 0 <= i < |styles| ==>
      r[2 * i] == styles[i] + " " + prefix + "-" && r[2 * i + 1] == styles[i] + prefix + "-"
  {
    if styles == [] then []
    else [styles[0] + " " + prefix + "-", styles[0] + prefix + "-"] + Candidates(prefix, styles[1..])
  }

  /** `cs.some(c => text.indexOf(c) !== -1)`. */
  predicate AnyOccurs(text: string, cs: seq<string>) {
    cs != [] && (IndexOf(text, cs[0]) != -1 || AnyOccurs(text, cs[1..]))
  }

  /** The check holds exactly when some candidate occurs somewhere in the text, exactly as written. */
  lemma {:induction false} AnyOccursExactly(text: string, cs: seq<string>)
    ensures AnyOccurs(text, cs) <==> exists i, k :: 0 <= i < |cs| && OccursAt(text, cs[i], k)
    decreases |cs|
  {
    if cs != [] {
      AnyOccursExactly(text, cs[1..]);
      if exists i, k :: 0 <= i < |cs| && OccursAt(text, cs[i], k) {
        var i, k :| 0 <= i < |cs| && OccursAt(text, cs[i], k);
        if i > 0 {
          assert OccursAt(text, cs[1..][i - 1], k);
        }
      }
    }
  }

  /** The quick check of workspaceIndexer.ts:67-68: a file failing it is skipped unread. */
  predicate QuickCheck(text: string, prefix: string, styles: seq<string>) {
    AnyOccurs(text, Candidates(prefix, styles))
  }

  /** The nodes a scanned file contributes, with the quick check as written. */
  function ScanFileAsWritten(text: string, file: string, prefix: string, styles: seq<string>, markPrefix: string): seq<Node> {
    if QuickCheck(text, prefix, styles) then FileNodes(text, file, prefix, styles, markPrefix) else []
  }

  /**
    The line `//  flow-Feat 2` (two spaces after the comment opener) holds a
    step that `parseText` reports, yet the quick check rejects the file, so
    a scan never sees it.
  */
  lemma QuickCheckMissesSpacedLine(file: string)
    ensures FileNodes("//  flow-Feat 2", file, "flow", ["//"], "mark") != []
    ensures ScanFileAsWritten("//  flow-Feat 2", file, "flow", ["//"], "mark") == []
  {
    var line := "//  flow-Feat 2";
    SpacedLineUnbroken(line);
    SpacedLineParses(line, file);
    OneLineFile(line, file, "flow", ["//"], "mark");
    SpacedLineMissed(line);
  }

  lemma SpacedLineParses(line: string, file: string)
    requires line == "//  flow-Feat 2"
    ensures ParseLine(line, file, 1, "flow", ["//"]).Some?
  {
    SpacedLineShape(line);
    SpacedLinePieces();
    StepLineParses("", "//", "  ", "flow", "Feat", " ", "2", "", "", file, 1);
  }

  lemma SpacedLineShape(line: string)
    requires line == "//  flow-Feat 2"
    ensures line == PlainLine("", "//", "  ", "flow", "Feat" + " " + "2" + "" + "")
  {
    assert "Feat" + " " + "2" + "" + "" == "Feat 2";
  }

  /** The pieces of `//  flow-Feat 2` meet the conditions of a plainly written step line. */
  lemma SpacedLinePieces()
    ensures PlainPreamble("", "//", "  ", "flow") && PlainFeature("Feat") && " " != [] && AllSpace(" ")
    ensures IsOrderToken("2") && EndsToken("" + "")
    ensures AllSpace("") && NoLineTerminator("")
  {
  }

  lemma SpacedLineUnbroken(line: string)
    requires line == "//  flow-Feat 2"
    ensures '\n' !in line
  {
  }

  /** A text without a line break is one line, whose `parseLine` node, if any, is the file's only node. */
  lemma OneLineFile(line: string, file: string, prefix: string, styles: seq<string>, markPrefix: string)
    requires '\n' !in line
    ensures ParseLine(line, file, 1, prefix, styles).Some? ==> FileNodes(line, file, prefix, styles, markPrefix) != []
  {
    CharIndexAbsent(line, '\n', 0);
    assert SplitLines(line) == [line];
    var rs := LineResults([line], file, prefix, styles, markPrefix, 1);
    assert rs == [LineNode(line, file, 1, prefix, styles, markPrefix)];
    assert rs[..0] == [];
  }

  lemma SpacedLineMissed(line: string)
    requires line == "//  flow-Feat 2"
    ensures !QuickCheck(line, "flow", ["//"])
  {
    var cs := FlowCandidates();
    forall i, k: nat | 0 <= i < |cs| ensures !OccursAt(line, cs[i], k) {
      MissesCandidate(line, cs[i], if i == 0 then 3 else 2, k);
    }
    AnyOccursExactly(line, cs);
  }

  lemma FlowCandidates() returns (cs: seq<string>)
    ensures cs == Candidates("flow", ["//"]) == ["// flow-", "//flow-"]
  {
    cs := Candidates("flow", ["//"]);
    assert ["//"][1..] == [] && Candidates("flow", []) == [];
    assert "//" + " " + "flow" + "-" == "// flow-" && "//" + "flow" + "-" == "//flow-";
  }

  /** A candidate whose character `d` differs from the line's: it occurs nowhere in the line. */
  lemma MissesCandidate(line: string, c: string, d: nat, k: nat)
    requires line == "//  flow-Feat 2"
    requires (c == "// flow-" && d == 3) || (c == "//flow-" && d == 2)
    ensures !OccursAt(line, c, k)
  {
    var t := "  flow-Feat 2";
    assert line == "//" + t && '/' !in t;
    if k + |c| <= |line| {
      if k == 0 {
        assert line[d] == ' ' && c[d] == 'f';
        assert line[k..k + |c|][d] == line[d];
      } else {
        assert line[k + 1] == t[k - 1];
        assert line[k..k + |c|][1] != c[1];
      }
    }
  }

  // ---------------------------------------------------------------------
  // The quick check, corrected

  /**
    A check that never skips a file `parseLine` accepts a line of: the text
    holds `prefix-` somewhere, in any case, as the parser's own patterns
    demand.
  */
  predicate QuickCheckCorrected(text: string, prefix: string) {
    ContainsIgnoreCase(text, prefix + "-")
  }

  /** The nodes a scanned file contributes, with the corrected check. */
  function ScanFile(text: string, file: string, prefix: string, styles: seq<string>, markPrefix: string): seq<Node> {
    if QuickCheckCorrected(text, prefix) then FileNodes(text, file, prefix, styles, markPrefix) else []
  }

  /** Every line of a text lies somewhere in it: at `o`. */
  lemma {:induction false} LinesInside(s: string, i: nat) returns (o: nat)
    requires i < |SplitLines(s)|
    ensures OccursAt(s, SplitLines(s)[i], o)
    decreases |s|
  {
    if i == 0 {
      FirstLineInside(s);
      o := 0;
    } else {
      var c := LaterLine(s, i);
      var t := s[c + 1..];
      var piece := SplitLines(t)[i - 1];
      var o' := LinesInside(t, i - 1);
      OccursInSuffix(s, c + 1, piece, o');
      o := c + 1 + o';
    }
  }

  /** The first line starts the text. */
  lemma FirstLineInside(s: string)
    ensures OccursAt(s, SplitLines(s)[0], 0)
  {
    var c := CharIndexFrom(s, '\n', 0);
    if c == |s| {
      assert s[0..|s|] == s;
    } else {
      var line := if c > 0 && s[c - 1] == '\r' then s[..c - 1] else s[..c];
      assert SplitLines(s)[0] == line;
      assert s[0..|line|] == line;
    }
  }

  /** A later line is a line of the text after the first line break, at `c`. */
  lemma LaterLine(s: string, i: nat) returns (c: nat)
    requires 0 < i < |SplitLines(s)|
    ensures c < |s| && |SplitLines(s)| == |SplitLines(s[c + 1..])| + 1
    ensures SplitLines(s)[i] == SplitLines(s[c + 1..])[i - 1]
  {
    c := CharIndexFrom(s, '\n', 0);
    var line := if c > 0 && s[c - 1] == '\r' then s[..c - 1] else s[..c];
    assert SplitLines(s) == [line] + SplitLines(s[c + 1..]);
  }

  /** What occurs in a suffix of a text occurs in the text, shifted by where the suffix starts. */
  lemma OccursInSuffix(s: string, d: nat, pat: string, a: nat)
    requires d <= |s| && OccursAt(s[d..], pat, a)
    ensures OccursAt(s, pat, d + a)
  {
    assert s[d + a..d + a + |pat|] == s[d..][a..a + |pat|];
  }

  /** A pattern found in a piece of a text is found in the text. */
  lemma ContainsInside(s: string, o: nat, piece: string, pat: string)
    requires o + |piece| <= |s| && s[o..o + |piece|] == piece
    requires ContainsIgnoreCase(piece, pat)
    ensures ContainsIgnoreCase(s, pat)
  {
    var k: nat :| k <= |piece| && MatchesIgnoreCaseAt(piece, k, pat);
    assert MatchesIgnoreCaseAt(s, o + k, pat) by {
      forall m | 0 <= m < |pat| ensures CharMatchesIgnoreCase(s[o + k + m], pat[m]) {
        assert s[o + k + m] == piece[k + m];
      }
    }
  }

  /** The corrected check never skips a file one of whose lines `parseLine` accepts. */
  lemma QuickCheckCorrectedSound(text: string, file: string, prefix: string, styles: seq<string>, i: nat, n: nat)
    requires i < |SplitLines(text)|
    requires ParseLine(SplitLines(text)[i], file, n, prefix, styles).Some?
    ensures QuickCheckCorrected(text, prefix)
  {
    ParseLineNeedsKeyword(SplitLines(text)[i], file, n, prefix, styles);
    LineKeywordInText(text, i, prefix + "-");
  }

  /** A pattern found in one line of a text is found in the text. */
  lemma LineKeywordInText(text: string, i: nat, pat: string)
    requires i < |SplitLines(text)| && ContainsIgnoreCase(SplitLines(text)[i], pat)
    ensures ContainsIgnoreCase(text, pat)
  {
    var o := LinesInside(text, i);
    ContainsInside(text, o, SplitLines(text)[i], pat);
  }

  /** So a file skipped by the corrected check contributes only what `parseText` could give it: no flow nodes. */
  lemma ScanFileKeepsFlowNodes(text: string, file: string, prefix: string, styles: seq<string>, markPrefix: string)
    ensures ScanFile(text, file, prefix, styles, markPrefix) == [] || ScanFile(text, file, prefix, styles, markPrefix) == FileNodes(text, file, prefix, styles, markPrefix)
    ensures (exists i :: 0 <= i < |SplitLines(text)| && ParseLine(SplitLines(text)[i], file, i + 1, prefix, styles).Some?) ==>
      ScanFile(text, file, prefix, styles, markPrefix) == FileNodes(text, file, prefix, styles, markPrefix)
  {
    forall i | 0 <= i < |SplitLines(text)| && ParseLine(SplitLines(text)[i], file, i + 1, prefix, styles).Some?
      ensures QuickCheckCorrected(text, prefix)
    {
      QuickCheckCorrectedSound(text, file, prefix, styles, i, i + 1);
    }
  }

  // ---------------------------------------------------------------------
  // The fold into features

  /** A file of the workspace and its text. */
  datatype SourceFile = SourceFile(path: string, text: string)

  /** Which quick check a scan applies: the one of workspaceIndexer.ts:67-68, or the corrected one. */
  datatype Prefilter = AsWritten | Corrected

  /** The nodes one scanned file contributes under the given quick check. */
  function ScanFileWith(check: Prefilter, text: string, file: string, prefix: string, styles: seq<string>, markPrefix: string): seq<Node> {
    match check
    case AsWritten => ScanFileAsWritten(text, file, prefix, styles, markPrefix)
    case Corrected => ScanFile(text, file, prefix, styles, markPrefix)
  }

  /** The nodes of every scanned file, file after file. */
  function Collected(check: Prefilter, files: seq<SourceFile>, prefix: string, styles: seq<string>, markPrefix: string): seq<Node> {
    if files == [] then []
    else
      var f := files[|files| - 1];
      Collected(check, files[..|files| - 1], prefix, styles, markPrefix) + ScanFileWith(check, f.text, f.path, prefix, styles, markPrefix)
  }

  /** Appending two runs of nodes is appending the first, then the second. */
  lemma {:induction false} AddAllAppend(c: map<string, seq<Node>>, a: seq<Node>, b: seq<Node>)
    ensures AddAll(c, a + b) == AddAll(AddAll(c, a), b)
    ensures AddKeys(AddKeys([], a), b) == AddKeys([], a + b)
    decreases |b|
  {
    if b == [] {
      assert a + b == a;
    } else {
      assert (a + b)[..|a + b| - 1] == a + b[..|b| - 1];
      AddAllAppend(c, a, b[..|b| - 1]);
    }
  }

  /**
    The scan's graph (workspaceIndexer.ts:79-84, 94-97, 118): the nodes of
    every file that passes the check are appended to their features, which
    are created on demand; then every feature's issues are computed, and
    every feature is sorted. The files come in the order their reads finish.
  */
  method BuildGraph(check: Prefilter, files: seq<SourceFile>, prefix: string, styles: seq<string>, markPrefix: string) returns (graph: Graph)
    ensures fresh(graph) && graph.Valid()
    ensures graph.Contents() == SortAll(AddAll(map[], Collected(check, files, prefix, styles, markPrefix)))
    ensures graph.Issues() == IssuesAll(AddAll(map[], Collected(check, files, prefix, styles, markPrefix)))
    ensures graph.keys == AddKeys([], Collected(check, files, prefix, styles, markPrefix))
  {
    graph := new Graph();
    FoldFiles(check, graph, files, prefix, styles, markPrefix);
    RecomputeIssues(graph);
    graph := SortGraph(graph);
  }

  /** The loop over the files (workspaceIndexer.ts:54-89), on a graph that starts empty. */
  method FoldFiles(check: Prefilter, graph: Graph, files: seq<SourceFile>, prefix: string, styles: seq<string>, markPrefix: string)
    requires graph.Valid() && graph.features == map[] && graph.keys == []
    modifies graph
    ensures graph.Valid()
    ensures graph.Contents() == AddAll(map[], Collected(check, files, prefix, styles, markPrefix))
    ensures graph.keys == AddKeys([], Collected(check, files, prefix, styles, markPrefix))
    ensures fresh(graph.Repr())
  {
    assert graph.Contents() == map[];
    for i := 0 to |files|
      invariant fresh(graph.Repr()) && graph.Valid()
      invariant graph.Contents() == AddAll(map[], Collected(check, files[..i], prefix, styles, markPrefix))
      invariant graph.keys == AddKeys([], Collected(check, files[..i], prefix, styles, markPrefix))
    {
      ghost var done := Collected(check, files[..i], prefix, styles, markPrefix);
      ghost var more := ScanFileWith(check, files[i].text, files[i].path, prefix, styles, markPrefix);
      assert files[..i + 1][..i] == files[..i];
      assert Collected(check, files[..i + 1], prefix, styles, markPrefix) == done + more;
      AddAllAppend(map[], done, more);
      ScanInto(check, graph, files[i], prefix, styles, markPrefix);
    }
    assert files[..|files|] == files;
  }

  /** One file: its nodes are appended to their features. */
  method ScanInto(check: Prefilter, graph: Graph, f: SourceFile, prefix: string, styles: seq<string>, markPrefix: string)
    requires graph.Valid()
    modifies graph, graph.Repr()
    ensures graph.Valid()
    ensures graph.Contents() == AddAll(old(graph.Contents()), ScanFileWith(check, f.text, f.path, prefix, styles, markPrefix))
    ensures graph.keys == AddKeys(old(graph.keys), ScanFileWith(check, f.text, f.path, prefix, styles, markPrefix))
    ensures fresh(graph.Repr() - old(graph.Repr()))
  {
    var nodes := ScanText(check, f, prefix, styles, markPrefix);
    AddScanned(graph, nodes, ScanFileWith(check, f.text, f.path, prefix, styles, markPrefix));
  }

  /** `AddNodes`, with the contents stated through the scan that produced the nodes. */
  method AddScanned(graph: Graph, nodes: seq<Node>, ghost scanned: seq<Node>)
    requires graph.Valid() && nodes == scanned
    modifies graph, graph.Repr()
    ensures graph.Valid()
    ensures graph.Contents() == AddAll(old(graph.Contents()), scanned)
    ensures graph.keys == AddKeys(old(graph.keys), scanned)
    ensures fresh(graph.Repr() - old(graph.Repr()))
  {
    AddNodes(graph, nodes);
  }

  /** What one file contributes: its parsed nodes when it passes the check, else none. */
  method ScanText(check: Prefilter, f: SourceFile, prefix: string, styles: seq<string>, markPrefix: string) returns (nodes: seq<Node>)
    ensures nodes == ScanFileWith(check, f.text, f.path, prefix, styles, markPrefix)
  {
    var pass := match check
      case AsWritten => QuickCheck(f.text, prefix, styles)
      case Corrected => QuickCheckCorrected(f.text, prefix);
    if pass {
      nodes := ParseText(f.text, f.path, prefix, styles, markPrefix);
    } else {
      nodes := [];
    }
  }

  /**
    In the scan's graph, a feature is there exactly when some scanned node
    names it, and it holds exactly those nodes, sorted.
  */
  lemma ScanGroups(check: Prefilter, files: seq<SourceFile>, prefix: string, styles: seq<string>, markPrefix: string, k: string)
    ensures var ns := Collected(check, files, prefix, styles, markPrefix);
      (k in SortAll(AddAll(map[], ns)) <==> NewOf(ns, k) != [])
      && At(SortAll(AddAll(map[], ns)), k) == InsertionSort(NewOf(ns, k))
  {
    var ns := Collected(check, files, prefix, styles, markPrefix);
    AddAllAt(map[], ns, k);
    assert At(map[], k) + NewOf(ns, k) == NewOf(ns, k);
  }

  /**
    A workspace whose one file holds `//  flow-Feat 2`: the scan as written
    collects nothing from it, while the corrected scan collects the file's
    step.
  */
  lemma SpacedWorkspace(path: string)
    ensures Collected(AsWritten, [SourceFile(path, "//  flow-Feat 2")], "flow", ["//"], "mark") == []
    ensures Collected(Corrected, [SourceFile(path, "//  flow-Feat 2")], "flow", ["//"], "mark")
      == FileNodes("//  flow-Feat 2", path, "flow", ["//"], "mark") != []
  {
    var line := "//  flow-Feat 2";
    QuickCheckMissesSpacedLine(path);
    SpacedLineAccepted(line, path);
    OneFileCollected(AsWritten, SourceFile(path, line), "flow", ["//"], "mark");
    OneFileCollected(Corrected, SourceFile(path, line), "flow", ["//"], "mark");
  }

  /** The corrected check passes the text `//  flow-Feat 2`. */
  lemma SpacedLineAccepted(line: string, path: string)
    requires line == "//  flow-Feat 2"
    ensures QuickCheckCorrected(line, "flow")
  {
    SpacedLineUnbroken(line);
    SpacedLineParses(line, path);
    CharIndexAbsent(line, '\n', 0);
    assert SplitLines(line) == [line];
    QuickCheckCorrectedSound(line, path, "flow", ["//"], 0, 1);
  }

  /** A workspace of one file collects what that file contributes. */
  lemma OneFileCollected(check: Prefilter, f: SourceFile, prefix: string, styles: seq<string>, markPrefix: string)
    ensures Collected(check, [f], prefix, styles, markPrefix) == ScanFileWith(check, f.text, f.path, prefix, styles, markPrefix)
  {
    assert [f][..0] == [];
  }
}
