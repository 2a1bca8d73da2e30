/**
  The comment grammar (src/utils/parser.ts). Each syntax is a regular
  expression anchored at the start of the line,

    title     ^\s*OPENER\s*P-\s*([^\s-][^\s]*)-([^\s].*)$
    ordered   ^\s*OPENER\s*P-\s*(.+?)\s+(start|end|[0-9]+(?:\.[0-9]+)*)\s*(.*)$
    no order  ^\s*OPENER\s*P-\s*([^\s]+)\s+(.+)$
    mark      ^\s*OPENER\s*M(?:-\s*(.+))?$

  where OPENER is the alternation of the configured comment styles, P the flow
  prefix and M the mark prefix, all matched literally and ignoring case. Here
  each expression is an explicit search that visits the choices of a
  backtracking matcher in the order the matcher tries them (greedy repetitions
  longest first, the lazy one shortest first, alternatives left to right) and
  returns the captures of the first complete match.
*/
module Parser {
  import opened Wrappers
  import opened Strings
  import opened Types

  // ---------------------------------------------------------------------
  // The common preamble  ^\s*OPENER\s*KEYWORD

  /** The alternatives of the opener group; an empty style list leaves the empty group `(?:)`. */
  function Openers(styles: seq<string>): seq<string> {
    if styles == [] then [""] else styles
  }

  /**
    Where the keyword ends, trying the `\s*` after the opener with its run
    ending at `c`, then at `c - 1`, down to `lo`, the end of the opener.
  */
  function AfterGap(s: string, kw: string, lo: nat, c: nat): seq<nat>
    requires lo <= c <= |s|
    decreases c - lo
  {
    (if MatchesIgnoreCaseAt(s, c, kw) then [c + |kw|] else [])
    + (if c == lo then [] else AfterGap(s, kw, lo, c - 1))
  }

  /** The opener alternatives in order, each followed by every choice of the gap. */
  function AfterOpener(s: string, openers: seq<string>, kw: string, a: nat): seq<nat>
    requires a <= |s|
    decreases |openers|
  {
    if openers == [] then []
    else
      var o := openers[0];
      (if MatchesIgnoreCaseAt(s, a, o) then AfterGap(s, kw, a + |o|, SpaceRunEnd(s, a + |o|)) else [])
      + AfterOpener(s, openers[1..], kw, a)
  }

  /** The leading `\s*` with its run ending at `a`, then `a - 1`, down to 0. */
  function AfterLead(s: string, openers: seq<string>, kw: string, a: nat): seq<nat>
    requires a <= |s|
    decreases a
  {
    AfterOpener(s, openers, kw, a) + (if a == 0 then [] else AfterLead(s, openers, kw, a - 1))
  }

  /**
    Every position at which `^\s*OPENER\s*KEYWORD` can end, in the order a
    backtracking matcher reaches them. Each one is just past a
    case-insensitive occurrence of the keyword.
  */
  function PreambleEnds(s: string, styles: seq<string>, kw: string): seq<nat>
  {
    AfterLead(s, Openers(styles), kw, SpaceRunEnd(s, 0))
  }

  /** Every position in `ps` is just past a case-insensitive occurrence of `kw`. */
  predicate AfterKeyword(s: string, kw: string, ps: seq<nat>) {
    ps == [] || (|kw| <= ps[0] <= |s| && MatchesIgnoreCaseAt(s, ps[0] - |kw|, kw) && AfterKeyword(s, kw, ps[1..]))
  }

  lemma {:induction false} AfterKeywordAppend(s: string, kw: string, a: seq<nat>, b: seq<nat>)
    requires AfterKeyword(s, kw, a) && AfterKeyword(s, kw, b)
    ensures AfterKeyword(s, kw, a + b)
    decreases |a|
  {
    if a == [] {
      assert a + b == b;
    } else {
      AfterKeywordAppend(s, kw, a[1..], b);
      assert (a + b)[1..] == a[1..] + b;
    }
  }

  lemma {:induction false} AfterGapKeyword(s: string, kw: string, lo: nat, c: nat)
    requires lo <= c <= |s|
    ensures AfterKeyword(s, kw, AfterGap(s, kw, lo, c))
    decreases c - lo
  {
    var here: seq<nat> := if MatchesIgnoreCaseAt(s, c, kw) then [c + |kw|] else [];
    var rest: seq<nat> := if c == lo then [] else AfterGap(s, kw, lo, c - 1);
    if c > lo {
      AfterGapKeyword(s, kw, lo, c - 1);
    }
    AfterKeywordAppend(s, kw, here, rest);
  }

  lemma {:induction false} AfterOpenerKeyword(s: string, openers: seq<string>, kw: string, a: nat)
    requires a <= |s|
    ensures AfterKeyword(s, kw, AfterOpener(s, openers, kw, a))
    decreases |openers|
  {
    if openers != [] {
      var o := openers[0];
      var here: seq<nat> := if MatchesIgnoreCaseAt(s, a, o) then AfterGap(s, kw, a + |o|, SpaceRunEnd(s, a + |o|)) else [];
      if MatchesIgnoreCaseAt(s, a, o) {
        AfterGapKeyword(s, kw, a + |o|, SpaceRunEnd(s, a + |o|));
      }
      AfterOpenerKeyword(s, openers[1..], kw, a);
      AfterKeywordAppend(s, kw, here, AfterOpener(s, openers[1..], kw, a));
    }
  }

  lemma {:induction false} AfterLeadKeyword(s: string, openers: seq<string>, kw: string, a: nat)
    requires a <= |s|
    ensures AfterKeyword(s, kw, AfterLead(s, openers, kw, a))
    decreases a
  {
    AfterOpenerKeyword(s, openers, kw, a);
    if a > 0 {
      AfterLeadKeyword(s, openers, kw, a - 1);
    }
    AfterKeywordAppend(s, kw, AfterOpener(s, openers, kw, a), if a == 0 then [] else AfterLead(s, openers, kw, a - 1));
  }

  /** The preamble always ends just past the keyword. */
  lemma PreambleAfterKeyword(s: string, styles: seq<string>, kw: string)
    ensures AfterKeyword(s, kw, PreambleEnds(s, styles, kw))
  {
    AfterLeadKeyword(s, Openers(styles), kw, SpaceRunEnd(s, 0));
  }

  /** The first position whose continuation matches, and its captures. */
  function FirstMatch<T>(ps: seq<nat>, f: nat -> Option<T>): (r: Option<T>)
    ensures r.None? <==> forall i :: 0 <= i < |ps| ==> f(ps[i]).None?
    ensures r.Some? ==> exists i :: 0 <= i < |ps| && f(ps[i]) == r && forall k :: 0 <= k < i ==> f(ps[k]).None?
  {
    if ps == [] then None
    else if f(ps[0]).Some? then f(ps[0])
    else
      var r := FirstMatch(ps[1..], f);
      assert forall i :: 1 <= i < |ps| ==> ps[i] == ps[1..][i - 1];
      r
  }

  // ---------------------------------------------------------------------
  // Continuations after the keyword, one per syntax

  /** The captures `([^\s-][^\s]*)` and `([^\s].*)` of the title syntax. */
  datatype TitleMatch = TitleMatch(head: string, tail: string)

  /** The captures `(.+?)`, `(start|end|...)` and `(.*)` of the ordered syntax. */
  datatype OrderedMatch = OrderedMatch(feature: string, kind: string, rest: string)

  /** The captures `([^\s]+)` and `(.+)` of the no-order syntax. */
  datatype NoOrderMatch = NoOrderMatch(feature: string, rest: string)

  /** The last `-` in `s[lo..q]` (inclusive), if any. */
  function LastHyphen(s: string, lo: nat, q: int): (r: Option<nat>)
    requires q < |s|
    ensures r.Some? ==> lo <= r.value <= q && s[r.value] == '-'
    ensures r.Some? ==> forall k :: r.value < k <= q ==> s[k] != '-'
    ensures r.None? ==> forall k :: lo <= k <= q ==> s[k] != '-'
    decreases q - lo + 1
  {
    if q < lo then None else if s[q] == '-' then Some(q) else LastHyphen(s, lo, q - 1)
  }

  /**
    `\s*([^\s-][^\s]*)-([^\s].*)$` from position `j`. The leading `\s*` can
    only end where the whitespace run does, and the greedy `[^\s]*` makes the
    split fall on the last `-` of the first chunk that a non-space follows.
  */
  function TitleAt(s: string, j: nat): (r: Option<TitleMatch>)
    ensures r.Some? ==> r.value.head != [] && NoSpace(r.value.head) && r.value.head[0] != '-'
    ensures r.Some? ==> r.value.tail != [] && !IsSpace(r.value.tail[0]) && NoLineTerminator(r.value.tail)
  {
    if j > |s| then None
    else
      var k := SpaceRunEnd(s, j);
      if k == |s| || s[k] == '-' then None
      else
        var e := TokenEnd(s, k);
        match LastHyphen(s, k + 1, e - 2)
        case None => None
        case Some(q) =>
          if NoLineTerminator(s[q + 2..]) then
            assert NoSpace(s[k..q]);
            assert NoLineTerminator(s[q + 1..]) by {
              assert s[q + 1..] == [s[q + 1]] + s[q + 2..];
            }
            Some(TitleMatch(s[k..q], s[q + 1..]))
          else None
  }

  /**
    `\s*(.*)$` from position `g`: the whitespace run is skipped and what is
    left must hold no line terminator; it is the capture.
  */
  function RestFrom(s: string, g: nat): (r: Option<string>)
    requires g <= |s|
    ensures r.Some? ==> NoLineTerminator(r.value) && (r.value == [] || !IsSpace(r.value[0]))
  {
    var h := SpaceRunEnd(s, g);
    if NoLineTerminator(s[h..]) then Some(s[h..]) else None
  }

  predicate DigitsAndDots(s: string) {
    forall k :: 0 <= k < |s| ==> IsDigit(s[k]) || s[k] == '.'
  }

  /** After `[0-9]+` ends at `d`, the greedy `(?:\.[0-9]+)*`. */
  function DottedEnd(s: string, d: nat): (r: nat)
    requires d <= |s|
    ensures d <= r <= |s|
    ensures forall k :: d <= k < r ==> IsDigit(s[k]) || s[k] == '.'
    decreases |s| - d
  {
    if d + 1 < |s| && s[d] == '.' && IsDigit(s[d + 1]) then DottedEnd(s, DigitRunEnd(s, d + 1)) else d
  }

  /** A complete `[0-9]+(?:\.[0-9]+)*` token: the greedy scan reads all of it. */
  predicate IsOrderToken(t: string) {
    t != [] && IsDigit(t[0]) && DottedEnd(t, DigitRunEnd(t, 0)) == |t|
  }

  /** The shapes the kind capture can take. */
  predicate IsKind(k: string) {
    || (|k| == 5 && MatchesIgnoreCaseAt(k, 0, "start"))
    || (|k| == 3 && MatchesIgnoreCaseAt(k, 0, "end"))
    || (k != [] && IsDigit(k[0]) && DigitsAndDots(k))
  }

  datatype KindMatch = KindMatch(kind: string, rest: string)

  /**
    `\s+(start|end|[0-9]+(?:\.[0-9]+)*)\s*(.*)$` from position `e`. Neither
    shortening `\s+` nor shortening the digit token can rescue a failed
    continuation, so only the greedy choices are tried.
  */
  function KindAt(s: string, e: nat): (r: Option<KindMatch>)
    requires e <= |s|
    ensures r.Some? ==> IsKind(r.value.kind) && NoSpace(r.value.kind)
    ensures r.Some? ==> NoLineTerminator(r.value.rest) && (r.value.rest == [] || !IsSpace(r.value.rest[0]))
  {
    var f := SpaceRunEnd(s, e);
    if f == e then None
    else if MatchesIgnoreCaseAt(s, f, "start") && RestFrom(s, f + 5).Some? then
      assert MatchesIgnoreCaseAt(s[f..f + 5], 0, "start");
      KindNoSpace(s[f..f + 5]);
      Some(KindMatch(s[f..f + 5], RestFrom(s, f + 5).value))
    else if MatchesIgnoreCaseAt(s, f, "end") && RestFrom(s, f + 3).Some? then
      assert MatchesIgnoreCaseAt(s[f..f + 3], 0, "end");
      KindNoSpace(s[f..f + 3]);
      Some(KindMatch(s[f..f + 3], RestFrom(s, f + 3).value))
    else if f < |s| && IsDigit(s[f]) then
      var t := DottedEnd(s, DigitRunEnd(s, f));
      match RestFrom(s, t)
      case Some(rest) =>
        KindNoSpace(s[f..t]);
        Some(KindMatch(s[f..t], rest))
      case None => None
    else None
  }

  lemma KindNoSpace(k: string)
    requires IsKind(k)
    ensures NoSpace(k)
  {
    forall i | 0 <= i < |k| ensures !IsSpace(k[i]) {
      if |k| == 5 && MatchesIgnoreCaseAt(k, 0, "start") {
        assert CharMatchesIgnoreCase(k[i], "start"[i]);
      } else if |k| == 3 && MatchesIgnoreCaseAt(k, 0, "end") {
        assert CharMatchesIgnoreCase(k[i], "end"[i]);
      }
    }
  }

  /**
    The lazy `(.+?)` starting at `w`, trying an end at `e`, then `e + 1`, ...;
    it cannot run past a line terminator.
  */
  function LazyFeature(s: string, w: nat, e: nat): (r: Option<OrderedMatch>)
    requires w < e
    ensures r.Some? ==> IsKind(r.value.kind) && NoSpace(r.value.kind)
    ensures r.Some? ==> NoLineTerminator(r.value.rest) && (r.value.rest == [] || !IsSpace(r.value.rest[0]))
    decreases |s| + 1 - e
  {
    if e > |s| || IsLineTerminator(s[e - 1]) then None
    else
      match KindAt(s, e)
      case Some(km) => Some(OrderedMatch(s[w..e], km.kind, km.rest))
      case None => LazyFeature(s, w, e + 1)
  }

  /** The leading `\s*` of the ordered continuation, its run ending at `w`, then `w - 1`, down to `lo`. */
  function OrderedFrom(s: string, lo: nat, w: nat): (r: Option<OrderedMatch>)
    requires lo <= w <= |s|
    ensures r.Some? ==> IsKind(r.value.kind) && NoSpace(r.value.kind)
    ensures r.Some? ==> NoLineTerminator(r.value.rest) && (r.value.rest == [] || !IsSpace(r.value.rest[0]))
    decreases w - lo
  {
    match LazyFeature(s, w, w + 1)
    case Some(m) => Some(m)
    case None => if w == lo then None else OrderedFrom(s, lo, w - 1)
  }

  /** `\s*(.+?)\s+(start|end|[0-9]+(?:\.[0-9]+)*)\s*(.*)$` from position `j`. */
  function OrderedAt(s: string, j: nat): (r: Option<OrderedMatch>)
    ensures r.Some? ==> IsKind(r.value.kind) && NoSpace(r.value.kind)
    ensures r.Some? ==> NoLineTerminator(r.value.rest) && (r.value.rest == [] || !IsSpace(r.value.rest[0]))
  {
    if j > |s| then None else OrderedFrom(s, j, SpaceRunEnd(s, j))
  }

  /**
    A whitespace run followed by `(.+)$`, with the run tried ending at `p`,
    then `p - 1`, down to `lo`: where the capture starts, if anywhere.
  */
  function TailFrom(s: string, lo: nat, p: nat): (r: Option<nat>)
    requires lo <= p <= |s|
    ensures r.Some? ==> lo <= r.value < |s| && NoLineTerminator(s[r.value..])
    decreases p - lo
  {
    if p < |s| && NoLineTerminator(s[p..]) then Some(p)
    else if p == lo then None
    else TailFrom(s, lo, p - 1)
  }

  /** `\s*([^\s]+)\s+(.+)$` from position `j`. */
  function NoOrderAt(s: string, j: nat): (r: Option<NoOrderMatch>)
    ensures r.Some? ==> r.value.feature != [] && NoSpace(r.value.feature)
  {
    if j > |s| then None
    else
      var w := SpaceRunEnd(s, j);
      var e := TokenEnd(s, w);
      if e == w then None
      else
        var f := SpaceRunEnd(s, e);
        if f == e then None
        else
          match TailFrom(s, e + 1, f)
          case Some(p) => Some(NoOrderMatch(s[w..e], s[p..]))
          case None => None
  }

  /**
    `(?:-\s*(.+))?$` from position `j`: `Some(Some(d))` when the group matched
    with capture `d`, `Some(None)` when the line ends at `j`.
  */
  function MarkAt(s: string, j: nat): (r: Option<Option<string>>)
  {
    if j > |s| then None
    else if j < |s| && s[j] == '-' then
      match TailFrom(s, j + 1, SpaceRunEnd(s, j + 1))
      case Some(p) => Some(Some(s[p..]))
      case None => None
    else if j == |s| then Some(None)
    else None
  }

  // ---------------------------------------------------------------------
  // Building nodes

  /** The numbers of the dot-separated segments; an empty segment is `Number('')`, 0. */
  function SegmentValues(segs: seq<string>): (r: seq<nat>)
    requires forall i :: 0 <= i < |segs| ==> AllDigits(segs[i])
    ensures |r| == |segs|
    ensures forall i :: 0 <= i < |segs| ==> r[i] == DecimalValue(segs[i])
  {
    if segs == [] then [] else [DecimalValue(segs[0])] + SegmentValues(segs[1..])
  }

  /**
    `parseOrder` on the text of a kind token (digits and dots only, which is
    all its one caller passes): each segment becomes its decimal value.
  */
  function ParseOrder(raw: string): (r: Option<OrderParts>)
    requires DigitsAndDots(raw)
    ensures r.None? <==> raw == []
    ensures r.Some? ==> |r.value.levels| == |Split(raw, '.')|
    ensures r.Some? ==> forall i :: 0 <= i < |r.value.levels| ==>
              AllDigits(Split(raw, '.')[i]) && r.value.levels[i] == DecimalValue(Split(raw, '.')[i])
  {
    if raw == [] then None
    else
      var segs := Split(raw, '.');
      SplitSegmentsAreDigits(raw);
      Some(OrderParts(SegmentValues(segs)))
  }

  lemma {:induction false} SplitSegmentsAreDigits(raw: string)
    requires DigitsAndDots(raw)
    ensures forall i :: 0 <= i < |Split(raw, '.')| ==> AllDigits(Split(raw, '.')[i])
    decreases |raw|
  {
    var i := CharIndexFrom(raw, '.', 0);
    if i < |raw| {
      SplitSegmentsAreDigits(raw[i + 1..]);
    }
  }

  function DescMeta(desc: string): Option<Meta> {
    if desc != "" then Some(Meta(Some(desc), None, None)) else None
  }

  /** The node of a title line (parser.ts:67-76). */
  function TitleNode(m: TitleMatch, file: string, line: nat): (n: Node)
    ensures n.role == Title && n.order.None? && LineNodeShape(n, file, line)
  {
    var feature := Trim(m.head);
    var t := Trim(m.tail);
    var title := t[..TokenEnd(t, 0)];
    var desc := Trim(t[|title|..]);
    Node(CreateNodeId(feature, Title, None, file, line), feature, Title, None, file, line,
         Some(Meta(if desc != "" then Some(desc) else None, None, if title != "" then Some(title) else None)))
  }

  /** The node of an ordered line (parser.ts:95-109). */
  function OrderedNode(m: OrderedMatch, file: string, line: nat): (n: Node)
    requires IsKind(m.kind) && NoSpace(m.kind)
    ensures n.role in {Start, Step, End} && n.file == file && n.line == line
    ensures n.id == CreateNodeId(n.feature, n.role, n.order, file, line)
    ensures n.order.Some? ==> n.role == Step && n.order.value.levels != []
    ensures n.meta == DescMeta(Trim(m.rest))
    ensures n.meta.None? <==> Trim(m.rest) == ""
  {
    var feature := Trim(m.feature);
    TrimNoSpace(m.kind);
    var kind := AsciiLower(Trim(m.kind));
    var desc := Trim(m.rest);
    var meta := DescMeta(desc);
    if kind == "start" || kind == "end" then
      var role := if kind == "start" then Start else End;
      Node(CreateNodeId(feature, role, None, file, line), feature, role, None, file, line, meta)
    else
      KindIsDigits(m.kind);
      var order := ParseOrder(kind);
      assert order.Some? ==> |order.value.levels| == |Split(kind, '.')|;
      Node(CreateNodeId(feature, Step, order, file, line), feature, Step, order, file, line, meta)
  }

  /** A kind that is not `start` or `end` in any case is a token of digits and dots. */
  lemma KindIsDigits(k: string)
    requires IsKind(k) && NoSpace(k)
    ensures AsciiLower(k) != "start" && AsciiLower(k) != "end" ==> AsciiLower(k) != [] && DigitsAndDots(AsciiLower(k))
  {
    if |k| == 5 && MatchesIgnoreCaseAt(k, 0, "start") {
      LowerOfMatch(k, "start");
    } else if |k| == 3 && MatchesIgnoreCaseAt(k, 0, "end") {
      LowerOfMatch(k, "end");
    } else {
      LowerKeepsDigitsAndDots(k);
    }
  }

  /** Text that matches a lower-case word ignoring case lowers to that word. */
  lemma LowerOfMatch(k: string, w: string)
    requires |k| == |w| && MatchesIgnoreCaseAt(k, 0, w)
    requires forall i :: 0 <= i < |w| ==> 'a' <= w[i] <= 'z'
    ensures AsciiLower(k) == w
  {
    forall i | 0 <= i < |w| ensures AsciiLower(k)[i] == w[i] {
      assert CharMatchesIgnoreCase(k[i], w[i]);
    }
  }

  lemma LowerKeepsDigitsAndDots(k: string)
    requires DigitsAndDots(k)
    ensures AsciiLower(k) == k
  {
    forall i | 0 <= i < |k| ensures AsciiLower(k)[i] == k[i] {
      assert IsDigit(k[i]) || k[i] == '.';
    }
  }

  lemma TrimNoSpace(s: string)
    requires NoSpace(s)
    ensures Trim(s) == s
  {
    TrimSpaceFree(s);
  }

  /** The node of a line that only has the no-order syntax (parser.ts:85-91). */
  function NoOrderNode(m: NoOrderMatch, file: string, line: nat): (n: Node)
    ensures n.role == Step && n.order.None? && LineNodeShape(n, file, line)
  {
    var feature := Trim(m.feature);
    var desc := Trim(m.rest);
    Node(CreateNodeId(feature, Step, None, file, line), feature, Step, None, file, line, Some(Meta(Some(desc), None, None)))
  }

  /** Shared facts about the nodes `parseLine` builds. */
  predicate LineNodeShape(n: Node, file: string, lineNumber: nat) {
    && n.file == file && n.line == lineNumber
    && n.id == CreateNodeId(n.feature, n.role, n.order, file, lineNumber)
    && (n.order.Some? ==> n.role == Step && n.order.value.levels != [])
  }

  /** The title syntax at the first preamble position where it matches. */
  function TitleLine(line: string, file: string, lineNumber: nat, prefix: string, styles: seq<string>): (r: Option<Node>)
    ensures r.Some? ==> r.value.role == Title && LineNodeShape(r.value, file, lineNumber)
  {
    var ps := PreambleEnds(line, styles, prefix + "-");
    match FirstMatch(ps, j => TitleAt(line, j))
    case Some(t) =>
      Some(TitleNode(t, file, lineNumber))
    case None => None
  }

  /** The ordered syntax at the first preamble position where it matches. */
  function OrderedLine(line: string, file: string, lineNumber: nat, prefix: string, styles: seq<string>): (r: Option<Node>)
    ensures r.Some? ==> r.value.role in {Start, Step, End} && LineNodeShape(r.value, file, lineNumber)
  {
    var ps := PreambleEnds(line, styles, prefix + "-");
    match FirstMatch(ps, j => OrderedAt(line, j))
    case Some(m) =>
      OrderedFound(line, ps, m);
      Some(OrderedNode(m, file, lineNumber))
    case None => None
  }

  /** The no-order syntax at the first preamble position where it matches. */
  function NoOrderLine(line: string, file: string, lineNumber: nat, prefix: string, styles: seq<string>): (r: Option<Node>)
    ensures r.Some? ==> r.value.role == Step && r.value.order.None? && LineNodeShape(r.value, file, lineNumber)
  {
    var ps := PreambleEnds(line, styles, prefix + "-");
    match FirstMatch(ps, j => NoOrderAt(line, j))
    case Some(m) =>
      Some(NoOrderNode(m, file, lineNumber))
    case None => None
  }

  /**
    `parseLine`: the title syntax, else the ordered syntax, else the
    no-order syntax, else nothing. Whatever it returns sits on a
    case-insensitive occurrence of `prefix-`.
  */
  function ParseLine(line: string, file: string, lineNumber: nat, prefix: string, styles: seq<string>): (r: Option<Node>)
    ensures r.Some? ==> r.value.role in {Start, Step, End, Title} && LineNodeShape(r.value, file, lineNumber)
  {
    match TitleLine(line, file, lineNumber, prefix, styles)
    case Some(n) => Some(n)
    case None =>
      match OrderedLine(line, file, lineNumber, prefix, styles)
      case Some(n) => Some(n)
      case None => NoOrderLine(line, file, lineNumber, prefix, styles)
  }

  lemma OrderedFound(s: string, ps: seq<nat>, m: OrderedMatch)
    requires FirstMatch(ps, j => OrderedAt(s, j)) == Some(m)
    ensures IsKind(m.kind) && NoSpace(m.kind)
  {
    var i :| 0 <= i < |ps| && (j => OrderedAt(s, j))(ps[i]) == Some(m);
    assert OrderedAt(s, ps[i]) == Some(m);
  }

  /** A line `parseLine` accepts holds `prefix-`, ignoring case. */
  lemma ParseLineNeedsKeyword(line: string, file: string, lineNumber: nat, prefix: string, styles: seq<string>)
    ensures ParseLine(line, file, lineNumber, prefix, styles).Some? ==> ContainsIgnoreCase(line, prefix + "-")
  {
    if ParseLine(line, file, lineNumber, prefix, styles).Some? {
      PreambleNonEmpty(line, file, lineNumber, prefix, styles);
      PreambleAfterKeyword(line, styles, prefix + "-");
      KeywordFound(line, PreambleEnds(line, styles, prefix + "-"), prefix + "-");
    }
  }

  lemma PreambleNonEmpty(line: string, file: string, lineNumber: nat, prefix: string, styles: seq<string>)
    ensures ParseLine(line, file, lineNumber, prefix, styles).Some? ==> PreambleEnds(line, styles, prefix + "-") != []
  {
    if PreambleEnds(line, styles, prefix + "-") == [] {
      assert TitleLine(line, file, lineNumber, prefix, styles).None?;
      assert OrderedLine(line, file, lineNumber, prefix, styles).None?;
      assert NoOrderLine(line, file, lineNumber, prefix, styles).None?;
    }
  }

  lemma KeywordFound(s: string, ps: seq<nat>, kw: string)
    requires ps != [] && AfterKeyword(s, kw, ps)
    ensures ContainsIgnoreCase(s, kw)
  {
    assert MatchesIgnoreCaseAt(s, ps[0] - |kw|, kw);
  }

  /** The mark node of a line, when the mark syntax matches it (parser.ts:122-130). */
  function MarkNode(line: string, file: string, lineNumber: nat, markPrefix: string, styles: seq<string>): (r: Option<Node>)
    ensures r.Some? ==> r.value.role == Mark && r.value.feature == "MARK" && r.value.order.None?
    ensures r.Some? ==> r.value.file == file && r.value.line == lineNumber
  {
    match FirstMatch(PreambleEnds(line, styles, markPrefix), j => MarkAt(line, j))
    case None => None
    case Some(g) =>
      var desc := Trim(if g.Some? then g.value else "");
      Some(Node(CreateNodeId("MARK", Mark, None, file, lineNumber), "MARK", Mark, None, file, lineNumber, DescMeta(desc)))
  }

  /** What one line contributes to `parseText`: its `parseLine` node, else its mark node. */
  function LineNode(line: string, file: string, lineNumber: nat, prefix: string, styles: seq<string>, markPrefix: string): (r: Option<Node>)
    ensures r.Some? ==> r.value.file == file && r.value.line == lineNumber
    ensures r.Some? && r.value.role == Mark ==> ParseLine(line, file, lineNumber, prefix, styles).None?
  {
    match ParseLine(line, file, lineNumber, prefix, styles)
    case Some(n) => Some(n)
    case None => MarkNode(line, file, lineNumber, markPrefix, styles)
  }

  /** What each of the first `i` lines contributes. */
  function LineResults(lines: seq<string>, file: string, prefix: string, styles: seq<string>, markPrefix: string, i: nat): (r: seq<Option<Node>>)
    requires i <= |lines|
    ensures |r| == i
  {
    if i == 0 then []
    else LineResults(lines, file, prefix, styles, markPrefix, i - 1) + [LineNode(lines[i - 1], file, i, prefix, styles, markPrefix)]
  }

  lemma LineResultsAt(lines: seq<string>, file: string, prefix: string, styles: seq<string>, markPrefix: string, i: nat)
    requires i <= |lines|
    ensures forall m :: 0 <= m < i ==>
              LineResults(lines, file, prefix, styles, markPrefix, i)[m] == LineNode(lines[m], file, m + 1, prefix, styles, markPrefix)
  {
    forall m | 0 <= m < i
      ensures LineResults(lines, file, prefix, styles, markPrefix, i)[m] == LineNode(lines[m], file, m + 1, prefix, styles, markPrefix)
    {
      LineResultAt(lines, file, prefix, styles, markPrefix, i, m);
    }
  }

  /** Result `m` of the first `i` lines is the outcome of line `m`. */
  lemma {:induction false} LineResultAt(lines: seq<string>, file: string, prefix: string, styles: seq<string>, markPrefix: string, i: nat, m: nat)
    requires m < i <= |lines|
    ensures LineResults(lines, file, prefix, styles, markPrefix, i)[m] == LineNode(lines[m], file, m + 1, prefix, styles, markPrefix)
    decreases i
  {
    var prev := LineResults(lines, file, prefix, styles, markPrefix, i - 1);
    var last := LineNode(lines[i - 1], file, i, prefix, styles, markPrefix);
    assert LineResults(lines, file, prefix, styles, markPrefix, i) == prev + [last];
    if m < i - 1 {
      LineResultAt(lines, file, prefix, styles, markPrefix, i - 1, m);
      assert (prev + [last])[m] == prev[m];
    } else {
      assert m == i - 1 && lines[m] == lines[i - 1];
      assert (prev + [last])[m] == last;
    }
  }

  /** The nodes that are present, in order. */
  function Present(rs: seq<Option<Node>>): seq<Node> {
    if rs == [] then []
    else Present(rs[..|rs| - 1]) + (if rs[|rs| - 1].Some? then [rs[|rs| - 1].value] else [])
  }

  /** Every collected node is the result of the line its number names. */
  lemma {:induction false} PresentFromLines(rs: seq<Option<Node>>)
    requires forall m :: 0 <= m < |rs| && rs[m].Some? ==> rs[m].value.line == m + 1
    ensures |Present(rs)| <= |rs|
    ensures forall k :: 0 <= k < |Present(rs)| ==>
              1 <= Present(rs)[k].line <= |rs| && rs[Present(rs)[k].line - 1] == Some(Present(rs)[k])
  {
    if rs != [] {
      var init := rs[..|rs| - 1];
      PresentFromLines(init);
      var nodes := Present(rs);
      forall k | 0 <= k < |nodes| ensures 1 <= nodes[k].line <= |rs| && rs[nodes[k].line - 1] == Some(nodes[k]) {
        if k < |Present(init)| {
          assert nodes[k] == Present(init)[k];
          assert init[nodes[k].line - 1] == rs[nodes[k].line - 1];
        }
      }
    }
  }

  /** The collected line numbers strictly increase. */
  lemma {:induction false} PresentIncreasing(rs: seq<Option<Node>>)
    requires forall m :: 0 <= m < |rs| && rs[m].Some? ==> rs[m].value.line == m + 1
    ensures forall k, l :: 0 <= k < l < |Present(rs)| ==> Present(rs)[k].line < Present(rs)[l].line
  {
    if rs != [] {
      var init := rs[..|rs| - 1];
      PresentIncreasing(init);
      PresentFromLines(init);
      var nodes := Present(rs);
      forall k, l | 0 <= k < l < |nodes| ensures nodes[k].line < nodes[l].line {
        assert nodes[k] == Present(init)[k];
        if l < |Present(init)| {
          assert nodes[l] == Present(init)[l];
        }
      }
    }
  }

  /** Every line with a result is collected. */
  lemma {:induction false} PresentComplete(rs: seq<Option<Node>>)
    requires forall m :: 0 <= m < |rs| && rs[m].Some? ==> rs[m].value.line == m + 1
    ensures forall m :: 0 <= m < |rs| && rs[m].Some? ==> exists k :: 0 <= k < |Present(rs)| && Present(rs)[k].line == m + 1
  {
    if rs != [] {
      var init := rs[..|rs| - 1];
      assert forall m :: 0 <= m < |init| ==> init[m] == rs[m];
      PresentComplete(init);
      var last := rs[|rs| - 1];
      assert Present(rs) == Present(init) + (if last.Some? then [last.value] else []);
      forall m | 0 <= m < |rs| && rs[m].Some? ensures exists k :: 0 <= k < |Present(rs)| && Present(rs)[k].line == m + 1 {
        if m < |rs| - 1 {
          assert init[m].Some?;
          var k :| 0 <= k < |Present(init)| && Present(init)[k].line == m + 1;
          assert Present(rs)[k] == Present(init)[k];
        } else {
          assert Present(rs)[|Present(rs)| - 1] == rs[m].value;
        }
      }
    }
  }

  /** The results are numbered from 1, as `parseText` numbers lines. */
  lemma LineResultsNumbered(lines: seq<string>, file: string, prefix: string, styles: seq<string>, markPrefix: string, i: nat)
    requires i <= |lines|
    ensures var rs := LineResults(lines, file, prefix, styles, markPrefix, i);
      forall m :: 0 <= m < |rs| && rs[m].Some? ==> rs[m].value.line == m + 1
  {
    LineResultsAt(lines, file, prefix, styles, markPrefix, i);
  }
}

/** `parseText`: a whole file's text, line by line. */
module TextParser {
  import opened Wrappers
  import opened Strings
  import opened Types
  import opened Parser

  /**
    `parseText` (parser.ts:112-133): the text split at line breaks, then the
    loop over its lines.
  */
  method ParseText(text: string, file: string, prefix: string, styles: seq<string>, markPrefix: string)
    returns (nodes: seq<Node>)
    ensures nodes == Present(LineResults(SplitLines(text), file, prefix, styles, markPrefix, |SplitLines(text)|))
  {
    var lines := SplitLines(text);
    nodes := ParseLines(lines, file, prefix, styles, markPrefix);
  }

  /**
    The loop of `parseText`: each line in order contributes its `parseLine`
    node, else its mark node, else nothing.
  */
  method ParseLines(lines: seq<string>, file: string, prefix: string, styles: seq<string>, markPrefix: string)
    returns (nodes: seq<Node>)
    ensures nodes == Present(LineResults(lines, file, prefix, styles, markPrefix, |lines|))
  {
    nodes := [];
    for i := 0 to |lines|
      invariant nodes == Present(LineResults(lines, file, prefix, styles, markPrefix, i))
    {
      ghost var prev := LineResults(lines, file, prefix, styles, markPrefix, i);
      ghost var rs := LineResults(lines, file, prefix, styles, markPrefix, i + 1);
      var found := LineNode(lines[i], file, i + 1, prefix, styles, markPrefix);
      assert rs == prev + [found];
      assert rs[..|rs| - 1] == prev;
      assert Present(rs) == Present(prev) + (if found.Some? then [found.value] else []);
      if found.Some? {
        nodes := nodes + [found.value];
      }
    }
  }
}
