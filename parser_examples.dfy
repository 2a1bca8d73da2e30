/**
  The lines of the repository's parser tests (src/test/parser.test.ts), run
  through the general facts about `parseLine` and `parseText`.
*/
module ParserExamples {
  import opened Wrappers
  import opened Strings
  import opened Types
  import opened Parser
  import opened ParserFacts

  /** `// flow-Auth start 初始化`: a start node of `Auth` without an order, desc `初始化`. */
  lemma StartLine(line: string, file: string, n: nat)
    requires line == "// flow-Auth start 初始化"
    ensures var r := ParseLine(line, file, n, "flow", ["//"]);
      r.Some? && Carries(r.value, "Auth", Start, None, Some(Meta(Some("初始化"), None, None)))
  {
    StartPieces(line);
    StartPremises();
    StartDesc();
    WordLineParses("", "//", " ", "flow", "Auth", " ", "start", " ", "初始化", file, n);
  }

  lemma StartPremises()
    ensures PlainPreamble("", "//", " ", "flow") && PlainFeature("Auth") && AllSpace(" ")
    ensures IsWord("start", "start") && !IsSpace("初始化"[0]) && NoLineTerminator("初始化")
  {
    assert MatchesIgnoreCaseAt("start", 0, "start");
  }

  lemma StartDesc()
    ensures DescMeta(Trim("初始化")) == Some(Meta(Some("初始化"), None, None))
  {
    TrimUnique("初始化", 0, 3);
    assert "初始化"[0..3] == "初始化";
  }

  lemma StartPieces(line: string)
    requires line == "// flow-Auth start 初始化"
    ensures line == PlainLine("", "//", " ", "flow", "Auth" + " " + "start" + " " + "初始化")
  {
  }

  /** A desc that starts and ends with a non-space is kept whole. */
  lemma WholeDesc(d: string)
    requires d != [] && !IsSpace(d[0]) && !IsSpace(d[|d| - 1])
    ensures DescMeta(Trim(d)) == Some(Meta(Some(d), None, None))
  {
    TrimUnique(d, 0, |d|);
    assert d[0..|d|] == d;
  }

  /** `// flow-支付 end 收尾`: an end node of `支付` without an order, desc `收尾`. */
  lemma EndLine(line: string, file: string, n: nat)
    requires line == "// flow-支付 end 收尾"
    ensures var r := ParseLine(line, file, n, "flow", ["//"]);
      r.Some? && Carries(r.value, "支付", End, None, Some(Meta(Some("收尾"), None, None)))
  {
    EndPieces(line);
    EndPremises();
    WholeDesc("收尾");
    WordLineParses("", "//", " ", "flow", "支付", " ", "end", " ", "收尾", file, n);
  }

  lemma EndPremises()
    ensures PlainPreamble("", "//", " ", "flow") && PlainFeature("支付") && AllSpace(" ")
    ensures IsWord("end", "end") && !IsWord("end", "start") && !IsSpace("收尾"[0]) && NoLineTerminator("收尾")
  {
    assert MatchesIgnoreCaseAt("end", 0, "end");
  }

  lemma EndPieces(line: string)
    requires line == "// flow-支付 end 收尾"
    ensures line == PlainLine("", "//", " ", "flow", "支付" + " " + "end" + " " + "收尾")
  {
  }

  /** The order token `1.2.3` reads as the levels 1, 2, 3. */
  lemma OrderOneTwoThree()
    ensures IsOrderToken("1.2.3") && DigitsAndDots("1.2.3") && ParseOrder("1.2.3") == Some(OrderParts([1, 2, 3]))
  {
    OrderRoundTrip([1, 2, 3]);
    LevelsOneTwoThree();
  }

  lemma LevelsOneTwoThree()
    ensures LevelsToString([1, 2, 3]) == "1.2.3"
  {
    assert NatToString(1) == "1" && NatToString(2) == "2" && NatToString(3) == "3";
    var parts := LevelStrings([1, 2, 3]);
    assert parts == ["1", "2", "3"];
    assert parts[1..][1..] == ["3"];
    assert Join(parts[1..], ".") == "2" + "." + "3";
    assert Join(parts, ".") == "1" + "." + ("2" + "." + "3");
  }

  /** `// flow-订单 1.2.3 参数校验`: a step of `订单` with levels 1, 2, 3 and desc `参数校验`. */
  lemma StepLevelsLine(line: string, file: string, n: nat)
    requires line == "// flow-订单 1.2.3 参数校验"
    ensures var r := ParseLine(line, file, n, "flow", ["//"]);
      r.Some? && Carries(r.value, "订单", Step, Some(OrderParts([1, 2, 3])), Some(Meta(Some("参数校验"), None, None)))
  {
    StepLevelsPieces(line);
    StepLevelsPreamble();
    OrderOneTwoThree();
    StepLevelsDesc("参数校验");
    StepLineParses("", "//", " ", "flow", "订单", " ", "1.2.3", " ", "参数校验", file, n);
  }

  lemma StepLevelsPieces(line: string)
    requires line == "// flow-订单 1.2.3 参数校验"
    ensures line == PlainLine("", "//", " ", "flow", "订单" + " " + "1.2.3" + " " + "参数校验")
  {
  }

  lemma StepLevelsPreamble()
    ensures PlainPreamble("", "//", " ", "flow") && PlainFeature("订单") && AllSpace(" ")
  {
  }

  lemma StepLevelsDesc(d: string)
    requires d == "参数校验"
    ensures EndsToken(" " + d) && NoLineTerminator(d) && !IsSpace(d[0])
    ensures DescMeta(Trim(d)) == Some(Meta(Some(d), None, None))
  {
    WholeDesc(d);
  }

  /** `//flow-Feat 2 描述`: no space after the comment opener; a step with the one level 2. */
  lemma NoGapLine(line: string, file: string, n: nat)
    requires line == "//flow-Feat 2 描述"
    ensures var r := ParseLine(line, file, n, "flow", ["//"]);
      r.Some? && Carries(r.value, "Feat", Step, Some(OrderParts([2])), Some(Meta(Some("描述"), None, None)))
  {
    NoGapPieces(line);
    FeatPreamble("", " ");
    OrderTwo();
    SolidDescs();
    PlainDesc(" ", "描述");
    StepLineParses("", "//", "", "flow", "Feat", " ", "2", " ", "描述", file, n);
  }

  lemma NoGapPieces(line: string)
    requires line == "//flow-Feat 2 描述"
    ensures line == PlainLine("", "//", "", "flow", "Feat" + " " + "2" + " " + "描述")
  {
  }

  /**
    `//  flow-Feat    2    多空格`: runs of spaces around the opener and the
    order; a step with the one level 2.
  */
  lemma WideGapLine(line: string, file: string, n: nat)
    requires line == "//  flow-Feat    2    多空格"
    ensures var r := ParseLine(line, file, n, "flow", ["//"]);
      r.Some? && Carries(r.value, "Feat", Step, Some(OrderParts([2])), Some(Meta(Some("多空格"), None, None)))
  {
    WideGapPieces(line);
    FeatPreamble("  ", "    ");
    OrderTwo();
    SolidDescs();
    PlainDesc("    ", "多空格");
    StepLineParses("", "//", "  ", "flow", "Feat", "    ", "2", "    ", "多空格", file, n);
  }

  lemma WideGapPieces(line: string)
    requires line == "//  flow-Feat    2    多空格"
    ensures line == PlainLine("", "//", "  ", "flow", "Feat" + "    " + "2" + "    " + "多空格")
  {
  }

  /** The preamble `//<gap>flow-` and the feature `Feat`, followed by the white space `sep`. */
  lemma FeatPreamble(gap: string, sep: string)
    requires gap == "" || gap == "  "
    requires sep == " " || sep == "    "
    ensures PlainPreamble("", "//", gap, "flow") && PlainFeature("Feat") && sep != [] && AllSpace(sep)
  {
  }

  /** The order token `2` reads as the one level 2. */
  lemma OrderTwo()
    ensures IsOrderToken("2") && ParseOrder("2") == Some(OrderParts([2]))
  {
    OrderRoundTrip([2]);
    assert NatToString(2) == "2";
    assert LevelStrings([2]) == ["2"];
  }

  /** White space `pad` and then a desc of one solid word, which is kept whole. */
  lemma PlainDesc(pad: string, d: string)
    requires pad != [] && AllSpace(pad) && d != [] && NoSpace(d)
    ensures EndsToken(pad + d) && NoLineTerminator(d) && !IsSpace(d[0])
    ensures DescMeta(Trim(d)) == Some(Meta(Some(d), None, None))
  {
    assert (pad + d)[0] == pad[0];
    WholeDesc(d);
  }

  lemma SolidDescs()
    ensures AllSpace(" ") && AllSpace("    ")
    ensures NoSpace("描述") && NoSpace("多空格") && NoSpace("前导零")
  {
  }

  /** `// flow-Feat 001.02 前导零`: leading zeros are dropped, giving the levels 1, 2. */
  lemma LeadingZeroLine(line: string, file: string, n: nat)
    requires line == "// flow-Feat 001.02 前导零"
    ensures var r := ParseLine(line, file, n, "flow", ["//"]);
      r.Some? && r.value.order == Some(OrderParts([1, 2]))
  {
    LeadingZeroPieces(line);
    FeatPreamble("", " ");
    OrderLeadingZero();
    SolidDescs();
    PlainDesc(" ", "前导零");
    StepLineParses("", "//", " ", "flow", "Feat", " ", "001.02", " ", "前导零", file, n);
  }

  lemma LeadingZeroPieces(line: string)
    requires line == "// flow-Feat 001.02 前导零"
    ensures line == PlainLine("", "//", " ", "flow", "Feat" + " " + "001.02" + " " + "前导零")
  {
  }

  /** The order token `001.02` reads as the levels 1, 2. */
  lemma OrderLeadingZero()
    ensures IsOrderToken("001.02") && ParseOrder("001.02") == Some(OrderParts([1, 2]))
  {
    var t := "001.02";
    assert DigitRunEnd(t, 0) == 3 && DigitRunEnd(t, 4) == 6;
    assert DottedEnd(t, 3) == DottedEnd(t, 6) == 6;
    assert CharIndexFrom(t, '.', 0) == 3;
    assert t[..3] == "001" && t[4..] == "02";
    assert CharIndexFrom("02", '.', 0) == 2;
    assert Split("02", '.') == ["02"];
    assert Split(t, '.') == ["001", "02"];
    LeadingZeroValues();
    var levels := ParseOrder(t).value.levels;
    assert |levels| == 2 && levels[0] == DecimalValue("001") && levels[1] == DecimalValue("02");
    assert levels == [1, 2];
  }

  lemma LeadingZeroValues()
    ensures AllDigits("001") && AllDigits("02")
    ensures DecimalValue("001") == 1 && DecimalValue("02") == 2
  {
    DecimalValueLeadingZero("1");
    DecimalValueLeadingZero("01");
    DecimalValueLeadingZero("2");
    assert DecimalValue("1") == 1 && DecimalValue("2") == 2;
    assert "0" + "01" == "001" && "0" + "1" == "01" && "0" + "2" == "02";
  }

  /**
    `// flow-Feat 1.a 不合法`: the order token stops before `.a`, which
    starts the desc; a step with the one level 1 and desc `.a 不合法`.
  */
  lemma BrokenTailLine(line: string, file: string, n: nat)
    requires line == "// flow-Feat 1.a 不合法"
    ensures var r := ParseLine(line, file, n, "flow", ["//"]);
      r.Some? && Carries(r.value, "Feat", Step, Some(OrderParts([1])), Some(Meta(Some(".a 不合法"), None, None)))
  {
    BrokenTailPieces(line);
    FeatPreamble("", " ");
    OrderOne();
    BrokenTailDesc(".a 不合法");
    StepLineParses("", "//", " ", "flow", "Feat", " ", "1", "", ".a 不合法", file, n);
  }

  lemma BrokenTailPieces(line: string)
    requires line == "// flow-Feat 1.a 不合法"
    ensures line == PlainLine("", "//", " ", "flow", "Feat" + " " + "1" + "" + ".a 不合法")
  {
  }

  /** The order token `1` reads as the one level 1. */
  lemma OrderOne()
    ensures IsOrderToken("1") && ParseOrder("1") == Some(OrderParts([1]))
  {
    OrderRoundTrip([1]);
    assert NatToString(1) == "1";
    assert LevelStrings([1]) == ["1"];
  }

  lemma BrokenTailDesc(d: string)
    requires d == ".a 不合法"
    ensures AllSpace("") && EndsToken("" + d) && NoLineTerminator(d) && !IsSpace(d[0])
    ensures DescMeta(Trim(d)) == Some(Meta(Some(d), None, None))
  {
    BrokenTailEnds(d);
    WholeDesc(d);
  }

  lemma BrokenTailEnds(d: string)
    requires d == ".a 不合法"
    ensures d != [] && !IsSpace(d[0]) && !IsSpace(d[|d| - 1]) && NoLineTerminator(d)
    ensures EndsToken("" + d)
  {
    assert "" + d == d;
  }

  // ---------------------------------------------------------------------
  // parseText over several lines

  /**
    `parseText` of the five lines `const a = 1;`, `// flow-Auth start`,
    `// flow-Auth 1 登录入口`, `/* some other comment */` and
    `// flow-Auth end`, joined by `\n`: three nodes, a start, a step and an
    end, in line order.
  */
  lemma FiveLineText(lines: seq<string>, text: string, file: string)
    requires lines == ["const a = 1;", "// flow-Auth start", "// flow-Auth 1 登录入口",
                       "/* some other comment */", "// flow-Auth end"]
    requires text == Join(lines, "\n")
    ensures var lines := SplitLines(text);
      var nodes := Present(LineResults(lines, file, "flow", ["//"], "mark", |lines|));
      |nodes| == 3 && nodes[0].role == Start && nodes[1].role == Step && nodes[2].role == End
      && nodes[0].line == 2 && nodes[1].line == 3 && nodes[2].line == 5
  {
    NoOpenerLine(lines[0], file, 1);
    NoOpenerLine(lines[3], file, 4);
    var a := WordNode(lines[1], file, 2, "start");
    var b := StepOneNode(lines[2], file, 3);
    var c := WordNode(lines[4], file, 5, "end");
    FiveUnbroken(lines);
    SplitJoinedLines(lines);
    FiveResults(lines, file, a, b, c);
  }

  /** A line with no `\n` and no trailing `\r`, as `split(/\r?\n/)` yields it. */
  predicate Unbroken(l: string) {
    '\n' !in l && (l == [] || l[|l| - 1] != '\r')
  }

  /** Unbroken lines joined by `\n` split back into those lines. */
  lemma {:induction false} SplitJoinedLines(lines: seq<string>)
    requires lines != [] && forall i :: 0 <= i < |lines| ==> Unbroken(lines[i])
    ensures SplitLines(Join(lines, "\n")) == lines
    decreases |lines|
  {
    if |lines| == 1 {
      CharIndexAbsent(lines[0], '\n', 0);
    } else {
      var rest := lines[1..];
      assert forall i :: 0 <= i < |rest| ==> rest[i] == lines[i + 1];
      SplitJoinedLines(rest);
      assert Join(lines, "\n") == lines[0] + "\n" + Join(rest, "\n");
      SplitFirstLine(lines[0], Join(rest, "\n"));
      assert [lines[0]] + rest == lines;
    }
  }

  lemma FiveUnbroken(lines: seq<string>)
    requires |lines| == 5
    requires Unbroken(lines[0]) && Unbroken(lines[1]) && Unbroken(lines[2]) && Unbroken(lines[3]) && Unbroken(lines[4])
    ensures forall i :: 0 <= i < |lines| ==> Unbroken(lines[i])
  {
  }

  /** An unbroken first line, then `\n`: that line, then the lines of the rest. */
  lemma SplitFirstLine(a: string, rest: string)
    requires Unbroken(a)
    ensures SplitLines(a + "\n" + rest) == [a] + SplitLines(rest)
  {
    var s := a + "\n" + rest;
    forall k | 0 <= k < |a| ensures s[k] != '\n' {
      assert s[k] == a[k];
    }
    CharIndexFirst(s, '\n', |a|);
    assert s[..|a|] == a && s[|a| + 1..] == rest;
  }

  /** The five lines give nothing, the start, the step, nothing and the end. */
  lemma FiveResults(lines: seq<string>, file: string, a: Node, b: Node, c: Node)
    requires |lines| == 5
    requires LineNode(lines[0], file, 1, "flow", ["//"], "mark") == None
    requires LineNode(lines[1], file, 2, "flow", ["//"], "mark") == Some(a)
    requires LineNode(lines[2], file, 3, "flow", ["//"], "mark") == Some(b)
    requires LineNode(lines[3], file, 4, "flow", ["//"], "mark") == None
    requires LineNode(lines[4], file, 5, "flow", ["//"], "mark") == Some(c)
    ensures Present(LineResults(lines, file, "flow", ["//"], "mark", |lines|)) == [a, b, c]
  {
    var rs := LineResults(lines, file, "flow", ["//"], "mark", 5);
    LineResultsAt(lines, file, "flow", ["//"], "mark", 5);
    assert rs[0].None? && rs[1] == Some(a) && rs[2] == Some(b) && rs[3].None? && rs[4] == Some(c);
    PresentFive(rs);
  }

  /** A line that does not start with the opener `//` gives neither a flow node nor a mark. */
  lemma NoOpenerLine(line: string, file: string, n: nat)
    requires line == "const a = 1;" || line == "/* some other comment */"
    ensures Unbroken(line) && LineNode(line, file, n, "flow", ["//"], "mark") == None
  {
    NoOpenerStart(line);
    NoOpenerNoPreamble(line, "flow-");
    NoOpenerNoPreamble(line, "mark");
  }

  lemma NoOpenerStart(line: string)
    requires line == "const a = 1;" || line == "/* some other comment */"
    ensures Unbroken(line) && SpaceRunEnd(line, 0) == 0 && !MatchesIgnoreCaseAt(line, 0, "//")
  {
    if line == "const a = 1;" {
      assert !IsSpace(line[0]) && !CharMatchesIgnoreCase(line[0], "//"[0]);
    } else {
      assert !IsSpace(line[0]) && !CharMatchesIgnoreCase(line[1], "//"[1]);
    }
  }

  lemma NoOpenerNoPreamble(line: string, kw: string)
    requires SpaceRunEnd(line, 0) == 0 && !MatchesIgnoreCaseAt(line, 0, "//")
    ensures PreambleEnds(line, ["//"], kw) == []
  {
    assert Openers(["//"]) == ["//"] && ["//"][1..] == [];
    assert AfterOpener(line, ["//"], kw, 0) == [];
  }

  /** `// flow-Auth start` and `// flow-Auth end`, with no desc: a start or end node of `Auth`. */
  lemma WordNode(line: string, file: string, n: nat, kind: string) returns (x: Node)
    requires (line == "// flow-Auth start" && kind == "start") || (line == "// flow-Auth end" && kind == "end")
    ensures Unbroken(line) && LineNode(line, file, n, "flow", ["//"], "mark") == Some(x)
    ensures x.role == (if kind == "start" then Start else End) && x.line == n
  {
    WordPieces(line, kind);
    WordLineParses("", "//", " ", "flow", "Auth", " ", kind, "", "", file, n);
    x := ParseLine(line, file, n, "flow", ["//"]).value;
  }

  lemma WordPieces(line: string, kind: string)
    requires (line == "// flow-Auth start" && kind == "start") || (line == "// flow-Auth end" && kind == "end")
    ensures Unbroken(line) && line == PlainLine("", "//", " ", "flow", "Auth" + " " + kind + "" + "")
    ensures PlainPreamble("", "//", " ", "flow") && PlainFeature("Auth") && AllSpace(" ") && AllSpace("")
    ensures IsWord(kind, "start") <==> kind == "start"
    ensures IsWord(kind, "start") || IsWord(kind, "end")
  {
    WordShape(line, kind);
    AuthPreamble();
    WordKind(kind);
  }

  lemma WordShape(line: string, kind: string)
    requires (line == "// flow-Auth start" && kind == "start") || (line == "// flow-Auth end" && kind == "end")
    ensures Unbroken(line) && line == PlainLine("", "//", " ", "flow", "Auth" + " " + kind + "" + "")
  {
    if kind == "start" {
      WordShapeOf(line, kind, "// flow-Auth start");
    } else {
      WordShapeOf(line, kind, "// flow-Auth end");
    }
  }

  lemma WordShapeOf(line: string, kind: string, l: string)
    requires line == l && l == "// flow-Auth " + kind && '\n' !in l && l[|l| - 1] != '\r'
    ensures Unbroken(line) && line == PlainLine("", "//", " ", "flow", "Auth" + " " + kind + "" + "")
  {
  }

  lemma WordKind(kind: string)
    requires kind == "start" || kind == "end"
    ensures IsWord(kind, "start") <==> kind == "start"
    ensures IsWord(kind, "start") || IsWord(kind, "end")
  {
    assert MatchesIgnoreCaseAt(kind, 0, kind);
    if kind == "end" {
      assert !CharMatchesIgnoreCase(kind[0], "start"[0]);
    }
  }

  lemma AuthPreamble()
    ensures PlainPreamble("", "//", " ", "flow") && PlainFeature("Auth") && AllSpace(" ") && AllSpace("")
  {
  }

  /** `// flow-Auth 1 登录入口`: a step of `Auth`. */
  lemma StepOneNode(line: string, file: string, n: nat) returns (x: Node)
    requires line == "// flow-Auth 1 登录入口"
    ensures Unbroken(line) && LineNode(line, file, n, "flow", ["//"], "mark") == Some(x)
    ensures x.role == Step && x.line == n
  {
    StepOnePieces(line);
    AuthPreamble();
    OrderOne();
    StepOneDesc("登录入口");
    StepLineParses("", "//", " ", "flow", "Auth", " ", "1", " ", "登录入口", file, n);
    x := ParseLine(line, file, n, "flow", ["//"]).value;
  }

  lemma StepOnePieces(line: string)
    requires line == "// flow-Auth 1 登录入口"
    ensures Unbroken(line) && line == PlainLine("", "//", " ", "flow", "Auth" + " " + "1" + " " + "登录入口")
  {
  }

  lemma StepOneDesc(d: string)
    requires d == "登录入口"
    ensures AllSpace(" ") && EndsToken(" " + d) && NoLineTerminator(d) && (d == [] || !IsSpace(d[0]))
  {
    assert NoSpace(d);
    PlainDesc(" ", d);
  }

  /** Five results with nodes at the second, third and fifth place collect those three. */
  lemma PresentFive(rs: seq<Option<Node>>)
    requires |rs| == 5 && rs[0].None? && rs[1].Some? && rs[2].Some? && rs[3].None? && rs[4].Some?
    ensures Present(rs) == [rs[1].value, rs[2].value, rs[4].value]
  {
    assert rs[..1][..0] == [] && Present(rs[..1]) == [];
    assert rs[..2][..1] == rs[..1] && Present(rs[..2]) == [rs[1].value];
    assert rs[..3][..2] == rs[..2] && Present(rs[..3]) == [rs[1].value, rs[2].value];
    assert rs[..4][..3] == rs[..3] && Present(rs[..4]) == [rs[1].value, rs[2].value];
    assert rs[..4] == rs[..|rs| - 1];
  }
}
