/**
  What the comment grammar does with plainly written lines: an indentation,
  one comment style, any spacing, `prefix-`, then the body of one of the
  syntaxes. Each lemma names the node `parseLine` (or the mark branch of
  `parseText`) produces.
*/
module ParserFacts {
  import opened Wrappers
  import opened Strings
  import opened Types
  import opened Parser

  lemma SpaceIsNotLetter(c: char)
    requires IsSpace(c)
    ensures !IsAsciiLetter(c)
  {
  }

  /** None of the gap positions `lo..c` starts the keyword when they are all spaces. */
  lemma {:induction false} AfterGapMiss(s: string, kw: string, lo: nat, c: nat)
    requires lo <= c <= |s|
    requires kw != [] && !IsSpace(kw[0])
    requires forall x :: lo <= x <= c && x < |s| ==> IsSpace(s[x])
    ensures AfterGap(s, kw, lo, c) == []
    decreases c - lo
  {
    if c < |s| {
      SpaceIsNotLetter(s[c]);
      assert !CharMatchesIgnoreCase(s[c], kw[0]);
    }
    assert !MatchesIgnoreCaseAt(s, c, kw);
    if c > lo {
      AfterGapMiss(s, kw, lo, c - 1);
    }
  }

  /** No choice of the leading `\s*` that stops inside the indentation lets the style match. */
  lemma {:induction false} AfterLeadMiss(s: string, st: string, kw: string, a: nat)
    requires a <= |s|
    requires st != [] && !IsSpace(st[0])
    requires forall x :: 0 <= x <= a && x < |s| ==> IsSpace(s[x])
    ensures AfterLead(s, [st], kw, a) == []
    decreases a
  {
    if a < |s| {
      SpaceIsNotLetter(s[a]);
      assert !CharMatchesIgnoreCase(s[a], st[0]);
    }
    assert !MatchesIgnoreCaseAt(s, a, st);
    assert AfterOpener(s, [st], kw, a) == [] by {
      assert [st][1..] == [];
    }
    if a > 0 {
      AfterLeadMiss(s, st, kw, a - 1);
    }
  }

  lemma {:induction false} ExactMatch(s: string, i: nat, pat: string)
    requires i + |pat| <= |s| && s[i..i + |pat|] == pat
    ensures MatchesIgnoreCaseAt(s, i, pat)
  {
    forall k | 0 <= k < |pat| ensures CharMatchesIgnoreCase(s[i + k], pat[k]) {
      assert s[i..i + |pat|][k] == s[i + k];
    }
  }

  /** A run of spaces from `i` that stops at `c`, at a non-space or at the end, ends at `c`. */
  lemma {:induction false} SpaceRunTo(s: string, i: nat, c: nat)
    requires i <= c <= |s| && (c == |s| || !IsSpace(s[c]))
    requires forall x :: i <= x < c ==> IsSpace(s[x])
    ensures SpaceRunEnd(s, i) == c
  {
  }

  /** Of the gap choices, only the full run of spaces reaches the keyword. */
  lemma {:induction false} GapHit(s: string, kw: string, lo: nat, c: nat)
    requires lo <= c <= |s|
    requires kw != [] && !IsSpace(kw[0])
    requires forall x :: lo <= x < c ==> IsSpace(s[x])
    requires MatchesIgnoreCaseAt(s, c, kw)
    ensures AfterGap(s, kw, lo, c) == [c + |kw|]
  {
    if c > lo {
      AfterGapMiss(s, kw, lo, c - 1);
    }
  }

  lemma {:induction false} LeadHit(s: string, st: string, kw: string, a: nat, p: nat)
    requires a <= |s| && st != [] && !IsSpace(st[0])
    requires forall x :: 0 <= x < a ==> IsSpace(s[x])
    requires AfterOpener(s, [st], kw, a) == [p]
    ensures AfterLead(s, [st], kw, a) == [p]
  {
    if a > 0 {
      AfterLeadMiss(s, st, kw, a - 1);
      assert AfterLead(s, [st], kw, a) == AfterOpener(s, [st], kw, a) + AfterLead(s, [st], kw, a - 1);
    } else {
      assert AfterLead(s, [st], kw, a) == AfterOpener(s, [st], kw, a) + [];
    }
  }

  /** The style at `a`, the spacing up to `c` and the keyword at `c` give one end, past the keyword. */
  lemma {:induction false} OpenerAt(s: string, st: string, kw: string, a: nat, c: nat)
    requires a + |st| <= c < |s| && !IsSpace(s[c])
    requires kw != [] && !IsSpace(kw[0])
    requires MatchesIgnoreCaseAt(s, a, st) && MatchesIgnoreCaseAt(s, c, kw)
    requires forall x :: a + |st| <= x < c ==> IsSpace(s[x])
    ensures AfterOpener(s, [st], kw, a) == [c + |kw|]
  {
    GapThenKeyword(s, kw, a + |st|, c);
    assert [st][1..] == [];
  }

  /** Spaces over `[b, c)` and the keyword at `c`: the gap after `b` ends just past the keyword. */
  lemma {:induction false} GapThenKeyword(s: string, kw: string, b: nat, c: nat)
    requires b <= c < |s| && !IsSpace(s[c])
    requires kw != [] && !IsSpace(kw[0]) && MatchesIgnoreCaseAt(s, c, kw)
    requires forall x :: b <= x < c ==> IsSpace(s[x])
    ensures AfterGap(s, kw, b, SpaceRunEnd(s, b)) == [c + |kw|]
  {
    SpaceRunTo(s, b, c);
    GapHit(s, kw, b, c);
  }

  /** `s` opens with spaces up to `a`, the style `st`, spaces up to `c` and the keyword `kw`. */
  predicate PreambleLayout(s: string, st: string, kw: string, a: nat, c: nat) {
    && st != [] && !IsSpace(st[0]) && kw != [] && !IsSpace(kw[0])
    && a + |st| <= c && c + |kw| <= |s|
    && (forall x :: 0 <= x < a ==> IsSpace(s[x]))
    && s[a..a + |st|] == st
    && (forall x :: a + |st| <= x < c ==> IsSpace(s[x]))
    && s[c..c + |kw|] == kw
  }

  lemma {:induction false} PreambleAt(s: string, st: string, kw: string, a: nat, c: nat)
    requires PreambleLayout(s, st, kw, a, c)
    ensures PreambleEnds(s, [st], kw) == [c + |kw|]
  {
    assert s[a] == st[0] by { assert s[a..a + |st|][0] == s[a]; }
    assert s[c] == kw[0] by { assert s[c..c + |kw|][0] == s[c]; }
    ExactMatch(s, a, st);
    ExactMatch(s, c, kw);
    OpenerAt(s, st, kw, a, c);
    assert AfterLead(s, [st], kw, a) == [c + |kw|] by {
      LeadHit(s, st, kw, a, c + |kw|);
    }
    SpaceRunTo(s, 0, a);
    assert Openers([st]) == [st];
  }

  /**
    With one comment style, a plainly written preamble leaves exactly one
    place for the syntaxes to start: just past the keyword.
  */
  lemma {:induction false} PreambleOf(ind: string, st: string, sp: string, kw: string, rest: string)
    requires AllSpace(ind) && AllSpace(sp)
    requires st != [] && !IsSpace(st[0])
    requires kw != [] && !IsSpace(kw[0])
    ensures PreambleEnds(ind + st + sp + kw + rest, [st], kw) == [|ind| + |st| + |sp| + |kw|]
  {
    var s := ind + st + sp + kw + rest;
    var a := |ind|;
    var c := a + |st| + |sp|;
    PreambleOfLine(s, ind, st, sp, kw, rest, a, c);
  }

  lemma PreambleOfLine(s: string, ind: string, st: string, sp: string, kw: string, rest: string, a: nat, c: nat)
    requires s == ind + st + sp + kw + rest && a == |ind| && c == a + |st| + |sp|
    requires AllSpace(ind) && AllSpace(sp)
    requires st != [] && !IsSpace(st[0])
    requires kw != [] && !IsSpace(kw[0])
    ensures PreambleEnds(s, [st], kw) == [c + |kw|]
  {
    PreambleLayoutOf(s, ind, st, sp, kw, rest, a, c);
    PreambleAt(s, st, kw, a, c);
  }

  lemma PreambleLayoutOf(s: string, ind: string, st: string, sp: string, kw: string, rest: string, a: nat, c: nat)
    requires s == ind + st + sp + kw + rest && a == |ind| && c == a + |st| + |sp|
    requires AllSpace(ind) && AllSpace(sp)
    requires st != [] && !IsSpace(st[0])
    requires kw != [] && !IsSpace(kw[0])
    ensures PreambleLayout(s, st, kw, a, c)
  {
    LeadOf(s, ind, st, sp, kw, rest, a);
    StyleOf(s, ind, st, sp, kw, rest, a);
    GapOf(s, ind, st, sp, kw, rest, a, c);
    KeywordOf(s, ind, st, sp, kw, rest, c);
  }

  lemma LeadOf(s: string, ind: string, st: string, sp: string, kw: string, rest: string, a: nat)
    requires s == ind + st + sp + kw + rest && a == |ind| && AllSpace(ind)
    ensures forall x :: 0 <= x < a ==> IsSpace(s[x])
  {
    forall x | 0 <= x < a ensures IsSpace(s[x]) {
      assert s[x] == ind[x];
    }
  }

  lemma StyleOf(s: string, ind: string, st: string, sp: string, kw: string, rest: string, a: nat)
    requires s == ind + st + sp + kw + rest && a == |ind|
    ensures a + |st| <= |s| && s[a..a + |st|] == st
  {
    forall x | 0 <= x < |st| ensures s[a + x] == st[x] {
    }
  }

  lemma GapOf(s: string, ind: string, st: string, sp: string, kw: string, rest: string, a: nat, c: nat)
    requires s == ind + st + sp + kw + rest && a == |ind| && c == a + |st| + |sp| && AllSpace(sp)
    ensures forall x :: a + |st| <= x < c ==> IsSpace(s[x])
  {
    var b := a + |st|;
    forall x | b <= x < c ensures IsSpace(s[x]) {
      assert s[x] == sp[x - b];
    }
  }

  lemma KeywordOf(s: string, ind: string, st: string, sp: string, kw: string, rest: string, c: nat)
    requires s == ind + st + sp + kw + rest && c == |ind| + |st| + |sp|
    ensures c + |kw| <= |s| && s[c..c + |kw|] == kw
  {
    forall x | 0 <= x < |kw| ensures s[c + x] == kw[x] {
    }
  }

  // ---------------------------------------------------------------------
  // The matchers on positions

  /** `x` is spelled out in `s` from position `i`. */
  predicate PieceAt(s: string, i: nat, x: string) {
    i + |x| <= |s| && forall k :: 0 <= k < |x| ==> s[i + k] == x[k]
  }

  predicate SpacesOn(s: string, lo: nat, hi: nat) {
    lo <= hi <= |s| && forall k :: lo <= k < hi ==> IsSpace(s[k])
  }

  predicate SolidOn(s: string, lo: nat, hi: nat) {
    lo <= hi <= |s| && forall k :: lo <= k < hi ==> !IsSpace(s[k])
  }

  lemma {:induction false} TokenRunTo(s: string, i: nat, c: nat)
    requires SolidOn(s, i, c) && (c == |s| || IsSpace(s[c]))
    ensures TokenEnd(s, i) == c
  {
  }

  lemma {:induction false} DigitRunTo(s: string, i: nat, c: nat)
    requires i <= c <= |s| && (c == |s| || !IsDigit(s[c]))
    requires forall k :: i <= k < c ==> IsDigit(s[k])
    ensures DigitRunEnd(s, i) == c
  {
  }

  /** The last `-` up to `q` is the one at `p` when none follows it. */
  lemma {:induction false} LastHyphenAt(s: string, lo: nat, q: nat, p: nat)
    requires lo <= p <= q < |s| && s[p] == '-'
    requires forall k :: p < k <= q ==> s[k] != '-'
    ensures LastHyphen(s, lo, q) == Some(p)
  {
  }

  /**
    A solid chunk `[j, h) - [h + 1, e)` whose only hyphen after its first
    character is the one at `h`, with nothing but `.`-characters after it:
    the title syntax splits it at `h`.
  */
  /** A solid feature `[j, h)` not starting with a hyphen, then the hyphen at `h`. */
  predicate TitleHead(s: string, j: nat, h: nat, feature: string) {
    && j < h < |s| && SolidOn(s, j, h)
    && s[j] != '-' && s[h] == '-'
    && s[j..h] == feature
  }

  /** From `g`, a solid hyphen-free title `[g, e)`, then clean text to the end of the line. */
  predicate TitleTail(s: string, g: nat, e: nat, tail: string) {
    && g < e <= |s| && SolidOn(s, g, e)
    && (forall k :: g <= k < e ==> s[k] != '-')
    && (e == |s| || IsSpace(s[e]))
    && NoLineTerminator(s[e..])
    && s[g..] == tail
  }

  lemma {:induction false} TitleAtSplit(s: string, j: nat, h: nat, e: nat, feature: string, tail: string)
    requires TitleHead(s, j, h, feature) && TitleTail(s, h + 1, e, tail)
    ensures TitleAt(s, j) == Some(TitleMatch(feature, tail))
  {
    assert SolidOn(s, j, e);
    SpaceRunTo(s, j, j);
    TokenRunTo(s, j, e);
    LastHyphenAt(s, j + 1, e - 2, h);
    assert NoLineTerminator(s[h + 2..]) by {
      var t := s[h + 2..];
      forall k | 0 <= k < |t| ensures !IsLineTerminator(t[k]) {
        if h + 2 + k >= e {
          assert t[k] == s[e..][h + 2 + k - e];
        }
      }
    }
  }

  /** A solid first chunk with no hyphen fails the title syntax. */
  lemma {:induction false} TitleAtNone(s: string, j: nat, e: nat)
    requires j < e && SolidOn(s, j, e) && (e == |s| || IsSpace(s[e]))
    requires forall k :: j <= k < e ==> s[k] != '-'
    ensures TitleAt(s, j).None?
  {
    SpaceRunTo(s, j, j);
    TokenRunTo(s, j, e);
  }

  lemma {:induction false} RestAt(s: string, g: nat, h: nat)
    requires SpacesOn(s, g, h) && (h == |s| || !IsSpace(s[h]))
    requires NoLineTerminator(s[h..])
    ensures RestFrom(s, g) == Some(s[h..])
  {
    SpaceRunTo(s, g, h);
  }

  /** No kind starts right after a non-space (or at the end). */
  lemma {:induction false} KindAtSolid(s: string, e: nat)
    requires e <= |s| && (e == |s| || !IsSpace(s[e]))
    ensures KindAt(s, e).None?
  {
    SpaceRunTo(s, e, e);
  }

  /** After a gap `[e, f)`, `start` or `end` is taken as the kind. */
  lemma {:induction false} KindWordAt(s: string, e: nat, f: nat, w: string, d: string)
    requires w == "start" || w == "end"
    requires e < f < |s| && SpacesOn(s, e, f) && !IsSpace(s[f])
    requires MatchesIgnoreCaseAt(s, f, w)
    requires w == "end" ==> !MatchesIgnoreCaseAt(s, f, "start")
    requires RestFrom(s, f + |w|) == Some(d)
    ensures KindAt(s, e) == Some(KindMatch(s[f..f + |w|], d))
  {
    SpaceRunTo(s, e, f);
  }

  /** After a gap `[e, f)`, a digit starts a dotted token, which ends where the greedy scan stops. */
  lemma {:induction false} KindOrderAt(s: string, e: nat, f: nat, d: string)
    requires e < f < |s| && SpacesOn(s, e, f) && IsDigit(s[f])
    requires RestFrom(s, DottedEnd(s, DigitRunEnd(s, f))) == Some(d)
    ensures KindAt(s, e) == Some(KindMatch(s[f..DottedEnd(s, DigitRunEnd(s, f))], d))
  {
    SpaceRunTo(s, e, f);
    assert !CharMatchesIgnoreCase(s[f], "start"[0]);
    assert !CharMatchesIgnoreCase(s[f], "end"[0]);
  }

  /** After a gap `[e, f)`, a character that starts no kind fails the kind. */
  lemma {:induction false} KindGapMiss(s: string, e: nat, f: nat)
    requires e < f < |s| && SpacesOn(s, e, f) && !IsSpace(s[f]) && !IsDigit(s[f])
    requires !MatchesIgnoreCaseAt(s, f, "start") && !MatchesIgnoreCaseAt(s, f, "end")
    ensures KindAt(s, e).None?
  {
    SpaceRunTo(s, e, f);
  }

  /** The lazy feature cannot stop inside a solid stretch: it gets what it gets at the stretch's end. */
  lemma {:induction false} LazySkip(s: string, w: nat, e: nat, last: nat, r: Option<OrderedMatch>)
    requires w < e <= last && SolidOn(s, w, last)
    requires LazyFeature(s, w, last) == r
    ensures LazyFeature(s, w, e) == r
    decreases last - e
  {
    if e < last {
      var e' := e + 1;
      LazyStepSolid(s, w, e, last);
      LazySkip(s, w, e', last, r);
    }
  }

  /** Inside a solid stretch the lazy feature grows by one character. */
  lemma {:induction false} LazyStepSolid(s: string, w: nat, e: nat, last: nat)
    requires w < e < last && SolidOn(s, w, last)
    ensures LazyFeature(s, w, e) == LazyFeature(s, w, e + 1)
  {
    assert !IsSpace(s[e - 1]) && !IsSpace(s[e]);
    KindAtSolid(s, e);
    LazyStep(s, w, e);
  }

  /** Where no kind follows, the lazy feature grows by one character. */
  lemma {:induction false} LazyStep(s: string, w: nat, e: nat)
    requires w < e <= |s| && !IsLineTerminator(s[e - 1]) && KindAt(s, e).None?
    ensures LazyFeature(s, w, e) == LazyFeature(s, w, e + 1)
  {
  }

  /** With no kind from `e` on, the lazy feature finds nothing. */
  lemma {:induction false} LazyMiss(s: string, w: nat, e: nat)
    requires w < e
    requires forall x :: e <= x <= |s| ==> KindAt(s, x).None?
    ensures LazyFeature(s, w, e).None?
    decreases |s| + 1 - e
  {
    if e <= |s| && !IsLineTerminator(s[e - 1]) {
      LazyStep(s, w, e);
      LazyMiss(s, w, e + 1);
    }
  }

  lemma {:induction false} OrderedAtSolid(s: string, j: nat)
    requires j < |s| && !IsSpace(s[j])
    ensures OrderedAt(s, j) == LazyFeature(s, j, j + 1)
  {
    SpaceRunTo(s, j, j);
  }

  /** A solid chunk `[j, e)`, a gap `[e, f)` and a tail from `f`: the no-order syntax. */
  lemma {:induction false} NoOrderAtSplit(s: string, j: nat, e: nat, f: nat)
    requires j < e < f < |s| && SolidOn(s, j, e) && SpacesOn(s, e, f) && !IsSpace(s[f])
    requires NoLineTerminator(s[f..])
    ensures NoOrderAt(s, j) == Some(NoOrderMatch(s[j..e], s[f..]))
  {
    SpaceRunTo(s, j, j);
    TokenRunTo(s, j, e);
    SpaceRunTo(s, e, f);
  }

  /** The greedy dotted-token scan cannot run on at `g`. */
  predicate TokenStops(s: string, g: nat) {
    g <= |s| && (g == |s| || (!IsDigit(s[g]) && !(g + 1 < |s| && s[g] == '.' && IsDigit(s[g + 1]))))
  }

  lemma {:induction false} DigitLocal(s: string, f: nat, t: string, i: nat)
    requires PieceAt(s, f, t) && i <= |t|
    requires DigitRunEnd(t, i) < |t| || f + |t| == |s| || !IsDigit(s[f + |t|])
    ensures DigitRunEnd(s, f + i) == f + DigitRunEnd(t, i)
  {
    var r := DigitRunEnd(t, i);
    if r < |t| {
      assert s[f + r] == t[r];
    }
    forall k | f + i <= k < f + r ensures IsDigit(s[k]) {
      assert s[f + (k - f)] == t[k - f];
    }
    DigitRunTo(s, f + i, f + r);
  }

  /** Where the scan of a whole token stops in `t`, it stops in `s` too. */
  lemma {:induction false} DottedLocal(s: string, f: nat, t: string, d: nat)
    requires PieceAt(s, f, t) && d <= |t| && DottedEnd(t, d) == |t|
    requires TokenStops(s, f + |t|)
    ensures DottedEnd(s, f + d) == f + |t|
    decreases |t| - d
  {
    if d + 1 < |t| && t[d] == '.' && IsDigit(t[d + 1]) {
      assert s[f + d] == t[d] && s[f + d + 1] == t[d + 1];
      var r := DigitRunEnd(t, d + 1);
      DigitLocal(s, f, t, d + 1);
      DottedLocal(s, f, t, r);
    }
  }

  /** A whole dotted token in `s` from `f` is exactly what the kind scan reads there. */
  lemma {:induction false} OrderTokenAt(s: string, f: nat, t: string)
    requires PieceAt(s, f, t) && IsOrderToken(t) && TokenStops(s, f + |t|)
    ensures f < |s| && IsDigit(s[f])
    ensures DottedEnd(s, DigitRunEnd(s, f)) == f + |t|
  {
    assert s[f] == t[0];
    var d := DigitRunEnd(t, 0);
    DigitLocal(s, f, t, 0);
    assert DigitRunEnd(s, f) == f + d;
    DottedLocal(s, f, t, d);
  }

  /** After a gap `[e, f)`, a whole dotted token `t` is the kind. */
  lemma {:induction false} KindTokenAt(s: string, e: nat, f: nat, t: string, d: string)
    requires e < f && SpacesOn(s, e, f)
    requires PieceAt(s, f, t) && IsOrderToken(t) && TokenStops(s, f + |t|)
    requires RestFrom(s, f + |t|) == Some(d)
    ensures KindAt(s, e) == Some(KindMatch(s[f..f + |t|], d))
  {
    OrderTokenAt(s, f, t);
    KindOrderAt(s, e, f, d);
  }

  /** A solid hyphen-free feature `[j, e)`, then a gap `[e, f)`. */
  predicate FeatureLayout(s: string, j: nat, e: nat, f: nat, feature: string) {
    && j < e < f <= |s| && SolidOn(s, j, e) && SpacesOn(s, e, f)
    && (forall k :: j <= k < e ==> s[k] != '-')
    && s[j..e] == feature
  }

  /** The word `w`, spelled `kind` in any case, at `f`, then the rest `d`. */
  predicate WordLayout(s: string, f: nat, w: string, kind: string, d: string) {
    && (w == "start" || w == "end")
    && f < |s| && !IsSpace(s[f])
    && MatchesIgnoreCaseAt(s, f, w)
    && (w == "end" ==> !MatchesIgnoreCaseAt(s, f, "start"))
    && RestFrom(s, f + |w|) == Some(d)
    && s[f..f + |w|] == kind
  }

  /** A whole dotted token `t` at `f` that nothing after it extends, then the rest `d`. */
  predicate TokenLayout(s: string, f: nat, t: string, d: string) {
    && PieceAt(s, f, t) && IsOrderToken(t) && TokenStops(s, f + |t|)
    && RestFrom(s, f + |t|) == Some(d)
  }

  /** On a feature and a word the title syntax fails and the ordered syntax takes the word. */
  lemma {:induction false} OrderedWordBody(s: string, j: nat, e: nat, f: nat, w: string, feature: string, kind: string, d: string)
    requires FeatureLayout(s, j, e, f, feature) && WordLayout(s, f, w, kind, d)
    ensures TitleAt(s, j).None?
    ensures OrderedAt(s, j) == Some(OrderedMatch(feature, kind, d))
  {
    TitleAtNone(s, j, e);
    KindWordAt(s, e, f, w, d);
    var r := Some(OrderedMatch(feature, kind, d));
    assert LazyFeature(s, j, e) == r;
    LazySkip(s, j, j + 1, e, r);
    OrderedAtSolid(s, j);
  }

  /** On a feature and a dotted token the title syntax fails and the ordered syntax takes the token. */
  lemma {:induction false} OrderedStepBody(s: string, j: nat, e: nat, f: nat, t: string, feature: string, d: string)
    requires FeatureLayout(s, j, e, f, feature) && TokenLayout(s, f, t, d)
    ensures TitleAt(s, j).None?
    ensures OrderedAt(s, j) == Some(OrderedMatch(feature, t, d))
  {
    TitleAtNone(s, j, e);
    KindTokenAt(s, e, f, t, d);
    PieceSlice(s, f, t);
    var r := Some(OrderedMatch(feature, t, d));
    assert LazyFeature(s, j, e) == r;
    LazySkip(s, j, j + 1, e, r);
    OrderedAtSolid(s, j);
  }

  /**
    A solid hyphen-free feature `[j, e)`, a gap `[e, f)` and a solid tail
    from `f` that starts no kind: only the no-order syntax matches.
  */
  lemma {:induction false} NoOrderBody(s: string, j: nat, e: nat, f: nat)
    requires j < e < f < |s| && SolidOn(s, j, e) && SpacesOn(s, e, f) && SolidOn(s, f, |s|)
    requires forall k :: j <= k < e ==> s[k] != '-'
    requires !IsDigit(s[f]) && !MatchesIgnoreCaseAt(s, f, "start") && !MatchesIgnoreCaseAt(s, f, "end")
    ensures TitleAt(s, j).None?
    ensures OrderedAt(s, j).None?
    ensures NoOrderAt(s, j) == Some(NoOrderMatch(s[j..e], s[f..]))
  {
    TitleAtNone(s, j, e);
    NoKindFrom(s, e, f);
    LazyMiss(s, j, e);
    LazySkip(s, j, j + 1, e, None);
    OrderedAtSolid(s, j);
    SolidTailPlain(s, f);
    NoOrderAtSplit(s, j, e, f);
  }

  /** A gap and then a solid tail that starts no kind: no kind starts anywhere from the gap on. */
  lemma {:induction false} NoKindFrom(s: string, e: nat, f: nat)
    requires e < f < |s| && SpacesOn(s, e, f) && SolidOn(s, f, |s|)
    requires !IsDigit(s[f]) && !MatchesIgnoreCaseAt(s, f, "start") && !MatchesIgnoreCaseAt(s, f, "end")
    ensures forall x :: e <= x <= |s| ==> KindAt(s, x).None?
  {
    forall x | e <= x <= |s| ensures KindAt(s, x).None? {
      if x < f {
        KindGapMiss(s, x, f);
      } else {
        KindAtSolid(s, x);
      }
    }
  }

  /** A solid tail holds no line terminator. */
  lemma {:induction false} SolidTailPlain(s: string, f: nat)
    requires f <= |s| && SolidOn(s, f, |s|)
    ensures NoLineTerminator(s[f..])
  {
    var t := s[f..];
    forall k | 0 <= k < |t| ensures !IsLineTerminator(t[k]) {
      assert t[k] == s[f + k];
    }
  }

  // ---------------------------------------------------------------------
  // From matches to nodes

  lemma FirstMatchOne<T>(p: nat, f: nat -> Option<T>)
    ensures FirstMatch([p], f) == f(p)
  {
  }

  lemma {:induction false} TitleLineAt(line: string, file: string, n: nat, prefix: string, styles: seq<string>, j: nat)
    requires PreambleEnds(line, styles, prefix + "-") == [j]
    ensures TitleLine(line, file, n, prefix, styles) ==
              if TitleAt(line, j).Some? then Some(TitleNode(TitleAt(line, j).value, file, n)) else None
  {
    FirstMatchOne(j, j => TitleAt(line, j));
  }

  lemma {:induction false} OrderedLineAt(line: string, file: string, n: nat, prefix: string, styles: seq<string>, j: nat)
    requires PreambleEnds(line, styles, prefix + "-") == [j]
    ensures OrderedLine(line, file, n, prefix, styles) ==
              if OrderedAt(line, j).Some? then Some(OrderedNode(OrderedAt(line, j).value, file, n)) else None
  {
    FirstMatchOne(j, j => OrderedAt(line, j));
  }

  lemma {:induction false} NoOrderLineAt(line: string, file: string, n: nat, prefix: string, styles: seq<string>, j: nat)
    requires PreambleEnds(line, styles, prefix + "-") == [j]
    ensures NoOrderLine(line, file, n, prefix, styles) ==
              if NoOrderAt(line, j).Some? then Some(NoOrderNode(NoOrderAt(line, j).value, file, n)) else None
  {
    FirstMatchOne(j, j => NoOrderAt(line, j));
  }

  /**
    Where the preamble ends at just one place, `parseLine` tries the title
    syntax there first, then the ordered one, then the no-order one.
  */
  lemma {:induction false} ParseLineAt(line: string, file: string, n: nat, prefix: string, styles: seq<string>, j: nat)
    requires PreambleEnds(line, styles, prefix + "-") == [j]
    ensures TitleAt(line, j).Some? ==>
              ParseLine(line, file, n, prefix, styles) == Some(TitleNode(TitleAt(line, j).value, file, n))
    ensures TitleAt(line, j).None? && OrderedAt(line, j).Some? ==>
              ParseLine(line, file, n, prefix, styles) == Some(OrderedNode(OrderedAt(line, j).value, file, n))
    ensures TitleAt(line, j).None? && OrderedAt(line, j).None? && NoOrderAt(line, j).Some? ==>
              ParseLine(line, file, n, prefix, styles) == Some(NoOrderNode(NoOrderAt(line, j).value, file, n))
    ensures TitleAt(line, j).None? && OrderedAt(line, j).None? && NoOrderAt(line, j).None? ==>
              ParseLine(line, file, n, prefix, styles).None?
  {
    TitleLineAt(line, file, n, prefix, styles, j);
    OrderedLineAt(line, file, n, prefix, styles, j);
    NoOrderLineAt(line, file, n, prefix, styles, j);
  }

  /** The node has this feature, role, order and meta. */
  predicate Carries(x: Node, feature: string, role: Role, order: Option<OrderParts>, meta: Option<Meta>) {
    x.feature == feature && x.role == role && x.order == order && x.meta == meta
  }

  /** `k` is the word `w` written in any case. */
  predicate IsWord(k: string, w: string) {
    |k| == |w| && MatchesIgnoreCaseAt(k, 0, w)
  }

  /** A trimmed description: no white space at either end, no line break. */
  predicate PlainText(d: string) {
    (d == [] || (!IsSpace(d[0]) && !IsSpace(d[|d| - 1]))) && NoLineTerminator(d)
  }

  /** The node of `feature start|end rest`: the role the word names, no order, the trimmed rest as desc. */
  lemma {:induction false} OrderedWordNode(feature: string, kind: string, rest: string, file: string, n: nat)
    requires NoSpace(feature)
    requires IsWord(kind, "start") || IsWord(kind, "end")
    ensures IsKind(kind) && NoSpace(kind)
    ensures Carries(OrderedNode(OrderedMatch(feature, kind, rest), file, n),
                    feature, if IsWord(kind, "start") then Start else End, None, DescMeta(Trim(rest)))
  {
    KindNoSpace(kind);
    TrimNoSpace(feature);
    TrimNoSpace(kind);
    if |kind| == 5 {
      WordLower(kind, "start");
    } else {
      WordLower(kind, "end");
    }
  }

  lemma {:induction false} WordLower(k: string, w: string)
    requires w == "start" || w == "end"
    requires IsWord(k, w)
    ensures AsciiLower(k) == w
  {
    if w == "start" {
      LowerOfMatch(k, "start");
    } else {
      LowerOfMatch(k, "end");
    }
  }

  lemma {:induction false} OrderTokenDigits(t: string)
    requires IsOrderToken(t)
    ensures DigitsAndDots(t)
  {
    var d := DigitRunEnd(t, 0);
    assert DottedEnd(t, d) == |t|;
  }

  /** The node of `feature 1.2.3 rest`: a step whose order is the token's, the trimmed rest as desc. */
  lemma {:induction false} OrderedStepNode(feature: string, kind: string, rest: string, file: string, n: nat)
    requires NoSpace(feature) && IsOrderToken(kind)
    ensures IsKind(kind) && NoSpace(kind) && DigitsAndDots(kind)
    ensures Carries(OrderedNode(OrderedMatch(feature, kind, rest), file, n), feature, Step, ParseOrder(kind), DescMeta(Trim(rest)))
  {
    OrderTokenDigits(kind);
    KindNoSpace(kind);
    TrimNoSpace(feature);
    TrimNoSpace(kind);
    LowerKeepsDigitsAndDots(kind);
    assert kind != "start" && kind != "end" by {
      assert IsDigit(kind[0]);
    }
  }

  /** The node of `feature rest` when only the no-order syntax matches: an unordered step with the rest as desc. */
  lemma {:induction false} NoOrderNodeOf(feature: string, rest: string, file: string, n: nat)
    requires NoSpace(feature) && PlainText(rest)
    ensures Carries(NoOrderNode(NoOrderMatch(feature, rest), file, n), feature, Step, None, Some(Meta(Some(rest), None, None)))
  {
    TrimNoSpace(feature);
    TrimSpaceFree(rest);
  }

  /**
    The node of `feature-title gap desc`: a title node whose meta has the
    title and, when there is one, the desc.
  */
  lemma {:induction false} TitleNodeOf(feature: string, title: string, gap: string, desc: string, file: string, n: nat)
    requires NoSpace(feature) && title != [] && NoSpace(title)
    requires AllSpace(gap) && (gap != [] || desc == []) && PlainText(desc)
    ensures Carries(TitleNode(TitleMatch(feature, title + gap + desc), file, n), feature, Title, None,
                    Some(Meta(if desc != "" then Some(desc) else None, None, Some(title))))
  {
    TrimNoSpace(feature);
    TitleSplit(title, gap, desc);
  }

  /** The trimmed tail splits into the title token and the desc. */
  lemma {:induction false} TitleSplit(title: string, gap: string, desc: string)
    requires title != [] && NoSpace(title)
    requires AllSpace(gap) && (gap != [] || desc == []) && PlainText(desc)
    ensures var t := Trim(title + gap + desc);
      TokenEnd(t, 0) == |title| && t[..|title|] == title && Trim(t[|title|..]) == desc
  {
    var x := if desc == [] then [] else gap + desc;
    TitleTailTrim(title, gap, desc);
    assert Trim(title + gap + desc) == title + x;
    TokenThenRest(title, x);
    GapThenDesc(gap, desc);
  }

  lemma {:induction false} TokenThenRest(title: string, x: string)
    requires title != [] && NoSpace(title) && (x == [] || IsSpace(x[0]))
    ensures TokenEnd(title + x, 0) == |title|
    ensures (title + x)[..|title|] == title && (title + x)[|title|..] == x
  {
    TokenRunTo(title + x, 0, |title|);
  }

  lemma {:induction false} GapThenDesc(gap: string, desc: string)
    requires AllSpace(gap) && PlainText(desc)
    ensures Trim(if desc == [] then [] else gap + desc) == desc
  {
    if desc != [] {
      var s := gap + desc;
      var i := |gap|;
      var j := |gap| + |desc|;
      assert s[..i] == gap && s[j..] == [];
      assert s[i] == desc[0] && s[j - 1] == desc[|desc| - 1];
      TrimUnique(s, i, j);
      assert s[i..j] == desc;
    }
  }

  lemma {:induction false} TitleTailTrim(title: string, gap: string, desc: string)
    requires title != [] && NoSpace(title)
    requires AllSpace(gap) && PlainText(desc)
    ensures Trim(title + gap + desc) == title + (if desc == [] then [] else gap + desc)
  {
    if desc == [] {
      assert title + gap + desc == title + gap;
      TrimTrailing(title, gap);
    } else {
      TrimWhole(title + gap + desc);
    }
  }

  lemma {:induction false} TrimTrailing(title: string, gap: string)
    requires title != [] && NoSpace(title) && AllSpace(gap)
    ensures Trim(title + gap) == title
  {
    var tail := title + gap;
    assert tail[|title|..] == gap && tail[..0] == [];
    assert tail[..|title|] == title;
    TrimUnique(tail, 0, |title|);
  }

  lemma {:induction false} TrimWhole(s: string)
    requires s != [] && !IsSpace(s[0]) && !IsSpace(s[|s| - 1])
    ensures Trim(s) == s
  {
    TrimSpaceFree(s);
  }


  // ---------------------------------------------------------------------
  // Whole lines

  /** A line of the shape `lead style gap prefix- body`. */
  function PlainLine(lead: string, style: string, gap: string, prefix: string, body: string): string {
    lead + style + gap + prefix + "-" + body
  }

  /** White space around a comment style and a prefix that each begin with a non-space. */
  predicate PlainPreamble(lead: string, style: string, gap: string, prefix: string) {
    AllSpace(lead) && AllSpace(gap) && style != [] && !IsSpace(style[0]) && (prefix == [] || !IsSpace(prefix[0]))
  }

  /** A feature name the title syntax cannot split: solid, without a hyphen. */
  predicate PlainFeature(feature: string) {
    feature != [] && NoSpace(feature) && '-' !in feature
  }

  /** The body of a plain line starts right after `prefix-`, the only place the preamble can end. */
  lemma {:induction false} PlainLineAt(lead: string, style: string, gap: string, prefix: string, body: string,
                                       s: string, j: nat)
    requires PlainPreamble(lead, style, gap, prefix)
    requires s == PlainLine(lead, style, gap, prefix, body) && j == |lead| + |style| + |gap| + |prefix| + 1
    ensures j <= |s| && PreambleEnds(s, [style], prefix + "-") == [j] && s[j..] == body
  {
    var kw := prefix + "-";
    assert s == lead + style + gap + kw + body;
    assert kw[0] == if prefix == [] then '-' else prefix[0];
    PreambleOf(lead, style, gap, kw, body);
    assert s[|lead| + |style| + |gap| + |kw|..] == body;
  }

  lemma {:induction false} Piece(s: string, i: nat, x: string, rest: string)
    requires i <= |s| && s[i..] == x + rest
    ensures PieceAt(s, i, x) && s[i + |x|..] == rest
  {
    forall k | 0 <= k < |x| ensures s[i + k] == x[k] {
      assert s[i..][k] == s[i + k];
    }
    assert s[i + |x|..] == s[i..][|x|..];
  }

  lemma {:induction false} PieceSlice(s: string, i: nat, x: string)
    requires PieceAt(s, i, x)
    ensures s[i..i + |x|] == x
  {
  }

  lemma {:induction false} SolidPiece(s: string, i: nat, x: string)
    requires PieceAt(s, i, x) && NoSpace(x)
    ensures SolidOn(s, i, i + |x|)
  {
    forall k | i <= k < i + |x| ensures !IsSpace(s[k]) {
      assert s[i + (k - i)] == x[k - i];
    }
  }

  lemma {:induction false} SpacesPiece(s: string, i: nat, x: string)
    requires PieceAt(s, i, x) && AllSpace(x)
    ensures SpacesOn(s, i, i + |x|)
  {
    forall k | i <= k < i + |x| ensures IsSpace(s[k]) {
      assert s[i + (k - i)] == x[k - i];
    }
  }

  lemma {:induction false} NoHyphenPiece(s: string, i: nat, x: string)
    requires PieceAt(s, i, x) && '-' !in x
    ensures forall k :: i <= k < i + |x| ==> s[k] != '-'
  {
    forall k | i <= k < i + |x| ensures s[k] != '-' {
      assert s[i + (k - i)] == x[k - i];
    }
  }

  lemma {:induction false} WordPiece(s: string, f: nat, k: string, w: string)
    requires PieceAt(s, f, k) && IsWord(k, w)
    ensures MatchesIgnoreCaseAt(s, f, w)
  {
    forall i | 0 <= i < |w| ensures CharMatchesIgnoreCase(s[f + i], w[i]) {
      assert s[f + i] == k[i];
    }
  }

  /** Text that reads `end` does not read `start`. */
  lemma {:induction false} EndNotStart(s: string, f: nat, k: string)
    requires PieceAt(s, f, k) && IsWord(k, "end")
    ensures !MatchesIgnoreCaseAt(s, f, "start")
  {
    assert s[f + 0] == k[0];
    assert CharMatchesIgnoreCase(k[0 + 0], "end"[0]);
    assert !CharMatchesIgnoreCase(s[f + 0], "start"[0]);
  }

  /** A rest that begins with a non-space after optional white space is the capture `(.*)`. */
  lemma {:induction false} RestPiece(s: string, g: nat, pad: string, rest: string)
    requires g <= |s| && s[g..] == pad + rest && AllSpace(pad)
    requires (rest == [] || !IsSpace(rest[0])) && NoLineTerminator(rest)
    ensures RestFrom(s, g) == Some(rest)
  {
    Piece(s, g, pad, rest);
    SpacesPiece(s, g, pad);
    if rest != [] {
      assert s[g + |pad|..][0] == s[g + |pad|];
    }
    RestAt(s, g, g + |pad|);
  }

  /** What a feature and its gap give the ordered syntax. */
  lemma {:induction false} FeatureGap(s: string, j: nat, feature: string, sep: string)
    requires PieceAt(s, j, feature) && PieceAt(s, j + |feature|, sep)
    requires PlainFeature(feature) && sep != [] && AllSpace(sep)
    ensures SolidOn(s, j, j + |feature|) && SpacesOn(s, j + |feature|, j + |feature| + |sep|)
    ensures forall k :: j <= k < j + |feature| ==> s[k] != '-'
  {
    SolidPiece(s, j, feature);
    NoHyphenPiece(s, j, feature);
    SpacesPiece(s, j + |feature|, sep);
  }

  /** The word `start` or `end` spelled at `f` in any case. */
  lemma {:induction false} WordKindAt(s: string, f: nat, kind: string, w: string)
    requires w == "start" || w == "end"
    requires PieceAt(s, f, kind) && IsWord(kind, w)
    ensures f < |s| && !IsSpace(s[f]) && MatchesIgnoreCaseAt(s, f, w)
    ensures w == "end" ==> !MatchesIgnoreCaseAt(s, f, "start")
  {
    KindNoSpace(kind);
    assert s[f + 0] == kind[0];
    WordPiece(s, f, kind, w);
    if w == "end" {
      EndNotStart(s, f, kind);
    }
  }

  /** The ordered syntax on `feature sep start|end pad rest`. */
  lemma {:induction false} OrderedWordText(s: string, j: nat, feature: string, sep: string, kind: string, pad: string, rest: string)
    requires j <= |s| && s[j..] == feature + sep + kind + pad + rest
    requires PlainFeature(feature) && sep != [] && AllSpace(sep)
    requires IsWord(kind, "start") || IsWord(kind, "end")
    requires AllSpace(pad) && (rest == [] || !IsSpace(rest[0])) && NoLineTerminator(rest)
    ensures TitleAt(s, j).None?
    ensures OrderedAt(s, j) == Some(OrderedMatch(feature, kind, rest))
  {
    var w := if IsWord(kind, "start") then "start" else "end";
    var e := j + |feature|;
    var f := e + |sep|;
    var tail := kind + pad + rest;
    assert feature + sep + kind + pad + rest == feature + sep + tail;
    FeatureLayoutOf(s, j, feature, sep, tail);
    assert FeatureLayout(s, j, e, f, feature) && s[f..] == tail;
    WordLayoutOf(s, f, kind, w, pad, rest);
    OrderedWordBody(s, j, e, f, w, feature, kind, rest);
  }

  /** The ordered syntax on `feature sep 1.2.3 pad rest`, where nothing after the token extends it. */
  lemma {:induction false} OrderedStepText(s: string, j: nat, feature: string, sep: string, kind: string, pad: string, rest: string)
    requires j <= |s| && s[j..] == feature + sep + kind + pad + rest
    requires PlainFeature(feature) && sep != [] && AllSpace(sep)
    requires IsOrderToken(kind) && EndsToken(pad + rest)
    requires AllSpace(pad) && (rest == [] || !IsSpace(rest[0])) && NoLineTerminator(rest)
    ensures TitleAt(s, j).None?
    ensures OrderedAt(s, j) == Some(OrderedMatch(feature, kind, rest))
  {
    var e := j + |feature|;
    var f := e + |sep|;
    var tail := kind + pad + rest;
    assert feature + sep + kind + pad + rest == feature + sep + tail;
    FeatureLayoutOf(s, j, feature, sep, tail);
    assert FeatureLayout(s, j, e, f, feature) && s[f..] == tail;
    TokenLayoutOf(s, f, kind, pad, rest);
    OrderedStepBody(s, j, e, f, kind, feature, rest);
  }

  lemma {:induction false} FeatureLayoutOf(s: string, j: nat, feature: string, sep: string, tail: string)
    requires j <= |s| && s[j..] == feature + sep + tail
    requires PlainFeature(feature) && sep != [] && AllSpace(sep)
    ensures FeatureLayout(s, j, j + |feature|, j + |feature| + |sep|, feature)
    ensures s[j + |feature| + |sep|..] == tail
  {
    assert feature + sep + tail == feature + (sep + tail);
    Piece(s, j, feature, sep + tail);
    Piece(s, j + |feature|, sep, tail);
    FeatureGap(s, j, feature, sep);
    PieceSlice(s, j, feature);
  }

  lemma {:induction false} WordLayoutOf(s: string, f: nat, kind: string, w: string, pad: string, rest: string)
    requires f <= |s| && s[f..] == kind + pad + rest
    requires (w == "start" || w == "end") && IsWord(kind, w)
    requires AllSpace(pad) && (rest == [] || !IsSpace(rest[0])) && NoLineTerminator(rest)
    ensures WordLayout(s, f, w, kind, rest)
  {
    assert kind + pad + rest == kind + (pad + rest);
    Piece(s, f, kind, pad + rest);
    WordKindAt(s, f, kind, w);
    RestPiece(s, f + |w|, pad, rest);
    PieceSlice(s, f, kind);
  }

  lemma {:induction false} TokenLayoutOf(s: string, f: nat, kind: string, pad: string, rest: string)
    requires f <= |s| && s[f..] == kind + pad + rest
    requires IsOrderToken(kind) && EndsToken(pad + rest)
    requires AllSpace(pad) && (rest == [] || !IsSpace(rest[0])) && NoLineTerminator(rest)
    ensures TokenLayout(s, f, kind, rest)
  {
    assert kind + pad + rest == kind + (pad + rest);
    Piece(s, f, kind, pad + rest);
    StopsAt(s, f + |kind|, pad + rest);
    RestPiece(s, f + |kind|, pad, rest);
  }

  /** What follows a dotted token neither continues its digits nor starts another `.digits` level. */
  predicate EndsToken(t: string) {
    t == [] || (!IsDigit(t[0]) && !(|t| > 1 && t[0] == '.' && IsDigit(t[1])))
  }

  lemma {:induction false} StopsAt(s: string, g: nat, t: string)
    requires g <= |s| && s[g..] == t && EndsToken(t)
    ensures TokenStops(s, g)
  {
    if g < |s| {
      assert s[g] == t[0];
      if g + 1 < |s| {
        assert s[g + 1] == t[1];
      }
    }
  }

  /** The title syntax on `feature-title gap desc`. */
  lemma {:induction false} TitleText(s: string, j: nat, feature: string, title: string, gap: string, desc: string)
    requires j <= |s| && s[j..] == feature + "-" + title + gap + desc
    requires feature != [] && NoSpace(feature) && feature[0] != '-'
    requires title != [] && NoSpace(title) && '-' !in title
    requires AllSpace(gap) && NoLineTerminator(gap) && (gap != [] || desc == []) && PlainText(desc)
    ensures TitleAt(s, j) == Some(TitleMatch(feature, title + gap + desc))
  {
    var h := j + |feature|;
    var g := h + 1;
    var m := g + |title|;
    var tail := title + gap + desc;
    assert feature + "-" + title + gap + desc == feature + "-" + tail;
    TitleHeadOf(s, j, feature, tail);
    assert TitleHead(s, j, h, feature) && s[g..] == tail;
    TitleTailOf(s, g, title, gap, desc);
    TitleAtSplit(s, j, h, m, feature, tail);
  }

  lemma {:induction false} TitleHeadOf(s: string, j: nat, feature: string, tail: string)
    requires j <= |s| && s[j..] == feature + "-" + tail
    requires feature != [] && NoSpace(feature) && feature[0] != '-'
    ensures TitleHead(s, j, j + |feature|, feature)
    ensures s[j + |feature| + 1..] == tail
  {
    assert feature + "-" + tail == feature + ("-" + tail);
    Piece(s, j, feature, "-" + tail);
    var h := j + |feature|;
    Piece(s, h, "-", tail);
    SolidPiece(s, j, feature);
    assert s[h + 0] == '-' && s[j + 0] == feature[0];
    PieceSlice(s, j, feature);
  }

  lemma {:induction false} TitleTailOf(s: string, g: nat, title: string, gap: string, desc: string)
    requires g <= |s| && s[g..] == title + gap + desc
    requires title != [] && NoSpace(title) && '-' !in title
    requires AllSpace(gap) && NoLineTerminator(gap) && (gap != [] || desc == []) && PlainText(desc)
    ensures TitleTail(s, g, g + |title|, title + gap + desc)
  {
    assert title + gap + desc == title + (gap + desc);
    Piece(s, g, title, gap + desc);
    var e := g + |title|;
    SolidPiece(s, g, title);
    NoHyphenPiece(s, g, title);
    if e < |s| {
      assert s[e] == (gap + desc)[0];
      assert gap != [];
    }
    GapDescClean(gap, desc);
  }

  lemma {:induction false} GapDescClean(gap: string, desc: string)
    requires NoLineTerminator(gap) && NoLineTerminator(desc)
    ensures NoLineTerminator(gap + desc)
  {
    forall k | 0 <= k < |gap + desc| ensures !IsLineTerminator((gap + desc)[k]) {
      if k >= |gap| {
        assert (gap + desc)[k] == desc[k - |gap|];
      } else {
        assert (gap + desc)[k] == gap[k];
      }
    }
  }

  /** The no-order syntax on `feature sep rest`, a solid rest that starts no kind. */
  lemma {:induction false} NoOrderText(s: string, j: nat, feature: string, sep: string, rest: string)
    requires j <= |s| && s[j..] == feature + sep + rest
    requires PlainFeature(feature) && sep != [] && AllSpace(sep)
    requires rest != [] && NoSpace(rest) && !IsDigit(rest[0])
    requires !MatchesIgnoreCaseAt(rest, 0, "start") && !MatchesIgnoreCaseAt(rest, 0, "end")
    ensures TitleAt(s, j).None? && OrderedAt(s, j).None?
    ensures NoOrderAt(s, j) == Some(NoOrderMatch(feature, rest))
  {
    var e := j + |feature|;
    var f := e + |sep|;
    NoOrderLayout(s, j, feature, sep, rest, e, f);
    NoOrderBody(s, j, e, f);
  }

  /** Where the pieces of `feature sep rest` lie in the line, and what the body lemma needs of them. */
  lemma {:induction false} NoOrderLayout(s: string, j: nat, feature: string, sep: string, rest: string, e: nat, f: nat)
    requires j <= |s| && s[j..] == feature + sep + rest
    requires PlainFeature(feature) && sep != [] && AllSpace(sep)
    requires rest != [] && NoSpace(rest) && !IsDigit(rest[0])
    requires !MatchesIgnoreCaseAt(rest, 0, "start") && !MatchesIgnoreCaseAt(rest, 0, "end")
    requires e == j + |feature| && f == e + |sep|
    ensures j < e < f < |s| && SolidOn(s, j, e) && SpacesOn(s, e, f) && SolidOn(s, f, |s|)
    ensures forall k :: j <= k < e ==> s[k] != '-'
    ensures !IsDigit(s[f]) && !MatchesIgnoreCaseAt(s, f, "start") && !MatchesIgnoreCaseAt(s, f, "end")
    ensures s[j..e] == feature && s[f..] == rest
  {
    assert feature + sep + rest == feature + (sep + rest);
    Piece(s, j, feature, sep + rest);
    Piece(s, e, sep, rest);
    Piece(s, f, rest, []);
    SolidPiece(s, j, feature);
    NoHyphenPiece(s, j, feature);
    SpacesPiece(s, e, sep);
    SolidPiece(s, f, rest);
    assert |s| == f + |rest|;
    assert s[f] == rest[0] by { assert s[f + 0] == rest[0]; }
    NotWordAt(s, f, rest, "start");
    NotWordAt(s, f, rest, "end");
    assert s[j..e] == feature && s[f..] == rest;
  }

  lemma {:induction false} NotWordAt(s: string, f: nat, rest: string, w: string)
    requires f <= |s| && s[f..] == rest && !MatchesIgnoreCaseAt(rest, 0, w)
    ensures !MatchesIgnoreCaseAt(s, f, w)
  {
    if MatchesIgnoreCaseAt(s, f, w) {
      forall i | 0 <= i < |w| ensures CharMatchesIgnoreCase(rest[0 + i], w[i]) {
        assert rest[i] == s[f + i];
      }
      assert false;
    }
  }

  // ---------------------------------------------------------------------
  // What parseLine makes of whole lines

  /**
    `// flow-<feature> start|end <desc>`, with any white space around the
    comment style and between the parts, and the keyword in any case: a
    start or end node of that feature, without an order, whose meta is the
    trimmed desc or absent when that is empty.
  */
  lemma {:induction false} WordLineParses(lead: string, style: string, gap: string, prefix: string,
                                          feature: string, sep: string, kind: string, pad: string, rest: string,
                                          file: string, n: nat)
    requires PlainPreamble(lead, style, gap, prefix) && PlainFeature(feature) && sep != [] && AllSpace(sep)
    requires IsWord(kind, "start") || IsWord(kind, "end")
    requires AllSpace(pad) && (rest == [] || !IsSpace(rest[0])) && NoLineTerminator(rest)
    ensures var r := ParseLine(PlainLine(lead, style, gap, prefix, feature + sep + kind + pad + rest), file, n, prefix, [style]);
      r.Some? && Carries(r.value, feature, if IsWord(kind, "start") then Start else End, None, DescMeta(Trim(rest)))
  {
    var body := feature + sep + kind + pad + rest;
    var s := PlainLine(lead, style, gap, prefix, body);
    var j := |lead| + |style| + |gap| + |prefix| + 1;
    PlainLineAt(lead, style, gap, prefix, body, s, j);
    WordBodyParses(s, j, file, n, prefix, [style], feature, sep, kind, pad, rest);
  }

  lemma {:induction false} WordBodyParses(s: string, j: nat, file: string, n: nat, prefix: string, styles: seq<string>,
                                          feature: string, sep: string, kind: string, pad: string, rest: string)
    requires PreambleEnds(s, styles, prefix + "-") == [j]
    requires j <= |s| && s[j..] == feature + sep + kind + pad + rest
    requires PlainFeature(feature) && sep != [] && AllSpace(sep)
    requires IsWord(kind, "start") || IsWord(kind, "end")
    requires AllSpace(pad) && (rest == [] || !IsSpace(rest[0])) && NoLineTerminator(rest)
    ensures var r := ParseLine(s, file, n, prefix, styles);
      r.Some? && Carries(r.value, feature, if IsWord(kind, "start") then Start else End, None, DescMeta(Trim(rest)))
  {
    OrderedWordText(s, j, feature, sep, kind, pad, rest);
    WordLineAt(s, j, file, n, prefix, styles, feature, kind, rest);
  }

  /**
    `// flow-<feature> <digits(.digits)*> <desc>`: an ordered step whose
    order is the token's levels; the desc as for start and end.
  */
  lemma {:induction false} StepLineParses(lead: string, style: string, gap: string, prefix: string,
                                          feature: string, sep: string, kind: string, pad: string, rest: string,
                                          file: string, n: nat)
    requires PlainPreamble(lead, style, gap, prefix) && PlainFeature(feature) && sep != [] && AllSpace(sep)
    requires IsOrderToken(kind) && EndsToken(pad + rest)
    requires AllSpace(pad) && (rest == [] || !IsSpace(rest[0])) && NoLineTerminator(rest)
    ensures var r := ParseLine(PlainLine(lead, style, gap, prefix, feature + sep + kind + pad + rest), file, n, prefix, [style]);
      r.Some? && Carries(r.value, feature, Step, ParseOrder(kind), DescMeta(Trim(rest)))
  {
    var body := feature + sep + kind + pad + rest;
    var s := PlainLine(lead, style, gap, prefix, body);
    var j := |lead| + |style| + |gap| + |prefix| + 1;
    PlainLineAt(lead, style, gap, prefix, body, s, j);
    StepBodyParses(s, j, file, n, prefix, [style], feature, sep, kind, pad, rest);
  }

  lemma {:induction false} StepBodyParses(s: string, j: nat, file: string, n: nat, prefix: string, styles: seq<string>,
                                          feature: string, sep: string, kind: string, pad: string, rest: string)
    requires PreambleEnds(s, styles, prefix + "-") == [j]
    requires j <= |s| && s[j..] == feature + sep + kind + pad + rest
    requires PlainFeature(feature) && sep != [] && AllSpace(sep)
    requires IsOrderToken(kind) && EndsToken(pad + rest)
    requires AllSpace(pad) && (rest == [] || !IsSpace(rest[0])) && NoLineTerminator(rest)
    ensures var r := ParseLine(s, file, n, prefix, styles);
      r.Some? && Carries(r.value, feature, Step, ParseOrder(kind), DescMeta(Trim(rest)))
  {
    OrderedStepText(s, j, feature, sep, kind, pad, rest);
    StepLineAt(s, j, file, n, prefix, styles, feature, kind, rest);
  }

  /**
    `// flow-<feature>-<title> <desc>`: the title syntax wins over the
    others; a title node whose meta has the title and, when present, the desc.
  */
  lemma {:induction false} TitleLineParses(lead: string, style: string, gap: string, prefix: string,
                                           feature: string, title: string, sep: string, desc: string,
                                           file: string, n: nat)
    requires PlainPreamble(lead, style, gap, prefix)
    requires feature != [] && NoSpace(feature) && feature[0] != '-'
    requires title != [] && NoSpace(title) && '-' !in title
    requires AllSpace(sep) && NoLineTerminator(sep) && (sep != [] || desc == []) && PlainText(desc)
    ensures var r := ParseLine(PlainLine(lead, style, gap, prefix, feature + "-" + title + sep + desc), file, n, prefix, [style]);
      r.Some? && Carries(r.value, feature, Title, None, Some(Meta(if desc != "" then Some(desc) else None, None, Some(title))))
  {
    var body := feature + "-" + title + sep + desc;
    var s := PlainLine(lead, style, gap, prefix, body);
    var j := |lead| + |style| + |gap| + |prefix| + 1;
    PlainLineAt(lead, style, gap, prefix, body, s, j);
    TitleBodyParses(s, j, file, n, prefix, [style], feature, title, sep, desc);
  }

  lemma {:induction false} TitleBodyParses(s: string, j: nat, file: string, n: nat, prefix: string, styles: seq<string>,
                                           feature: string, title: string, sep: string, desc: string)
    requires PreambleEnds(s, styles, prefix + "-") == [j]
    requires j <= |s| && s[j..] == feature + "-" + title + sep + desc
    requires feature != [] && NoSpace(feature) && feature[0] != '-'
    requires title != [] && NoSpace(title) && '-' !in title
    requires AllSpace(sep) && NoLineTerminator(sep) && (sep != [] || desc == []) && PlainText(desc)
    ensures var r := ParseLine(s, file, n, prefix, styles);
      r.Some? && Carries(r.value, feature, Title, None, Some(Meta(if desc != "" then Some(desc) else None, None, Some(title))))
  {
    TitleText(s, j, feature, title, sep, desc);
    TitleLineAtOf(s, j, file, n, prefix, styles, feature, title, sep, desc);
  }

  /**
    `// flow-<feature> <rest>` where the rest is one solid word that is no
    kind: an unordered step whose desc is that word.
  */
  lemma {:induction false} NoOrderLineParses(lead: string, style: string, gap: string, prefix: string,
                                             feature: string, sep: string, rest: string,
                                             file: string, n: nat)
    requires PlainPreamble(lead, style, gap, prefix) && PlainFeature(feature) && sep != [] && AllSpace(sep)
    requires rest != [] && NoSpace(rest) && !IsDigit(rest[0])
    requires !MatchesIgnoreCaseAt(rest, 0, "start") && !MatchesIgnoreCaseAt(rest, 0, "end")
    ensures var r := ParseLine(PlainLine(lead, style, gap, prefix, feature + sep + rest), file, n, prefix, [style]);
      r.Some? && Carries(r.value, feature, Step, None, Some(Meta(Some(rest), None, None)))
  {
    var body := feature + sep + rest;
    var s := PlainLine(lead, style, gap, prefix, body);
    var j := |lead| + |style| + |gap| + |prefix| + 1;
    PlainLineAt(lead, style, gap, prefix, body, s, j);
    NoOrderBodyParses(s, j, file, n, prefix, [style], feature, sep, rest);
  }

  lemma {:induction false} NoOrderBodyParses(s: string, j: nat, file: string, n: nat, prefix: string, styles: seq<string>,
                                             feature: string, sep: string, rest: string)
    requires PreambleEnds(s, styles, prefix + "-") == [j]
    requires j <= |s| && s[j..] == feature + sep + rest
    requires PlainFeature(feature) && sep != [] && AllSpace(sep)
    requires rest != [] && NoSpace(rest) && !IsDigit(rest[0])
    requires !MatchesIgnoreCaseAt(rest, 0, "start") && !MatchesIgnoreCaseAt(rest, 0, "end")
    ensures var r := ParseLine(s, file, n, prefix, styles);
      r.Some? && Carries(r.value, feature, Step, None, Some(Meta(Some(rest), None, None)))
  {
    NoOrderText(s, j, feature, sep, rest);
    NoOrderLineAtOf(s, j, file, n, prefix, styles, feature, rest);
  }

  lemma {:induction false} SolidPlain(d: string)
    requires d != [] && NoSpace(d)
    ensures PlainText(d)
  {
    forall k | 0 <= k < |d| ensures !IsLineTerminator(d[k]) {
      assert !IsSpace(d[k]);
    }
  }

  lemma {:induction false} WordLineAt(s: string, j: nat, file: string, n: nat, prefix: string, styles: seq<string>,
                                      feature: string, kind: string, rest: string)
    requires PreambleEnds(s, styles, prefix + "-") == [j]
    requires TitleAt(s, j).None? && OrderedAt(s, j) == Some(OrderedMatch(feature, kind, rest))
    requires NoSpace(feature) && (IsWord(kind, "start") || IsWord(kind, "end"))
    ensures var r := ParseLine(s, file, n, prefix, styles);
      r.Some? && Carries(r.value, feature, if IsWord(kind, "start") then Start else End, None, DescMeta(Trim(rest)))
  {
    ParseLineAt(s, file, n, prefix, styles, j);
    OrderedWordNode(feature, kind, rest, file, n);
  }

  lemma {:induction false} StepLineAt(s: string, j: nat, file: string, n: nat, prefix: string, styles: seq<string>,
                                      feature: string, kind: string, rest: string)
    requires PreambleEnds(s, styles, prefix + "-") == [j]
    requires TitleAt(s, j).None? && OrderedAt(s, j) == Some(OrderedMatch(feature, kind, rest))
    requires NoSpace(feature) && IsOrderToken(kind)
    ensures var r := ParseLine(s, file, n, prefix, styles);
      r.Some? && Carries(r.value, feature, Step, ParseOrder(kind), DescMeta(Trim(rest)))
  {
    ParseLineAt(s, file, n, prefix, styles, j);
    OrderedStepNode(feature, kind, rest, file, n);
  }

  lemma {:induction false} TitleLineAtOf(s: string, j: nat, file: string, n: nat, prefix: string, styles: seq<string>,
                                         feature: string, title: string, sep: string, desc: string)
    requires PreambleEnds(s, styles, prefix + "-") == [j]
    requires TitleAt(s, j) == Some(TitleMatch(feature, title + sep + desc))
    requires NoSpace(feature) && title != [] && NoSpace(title)
    requires AllSpace(sep) && (sep != [] || desc == []) && PlainText(desc)
    ensures var r := ParseLine(s, file, n, prefix, styles);
      r.Some? && Carries(r.value, feature, Title, None, Some(Meta(if desc != "" then Some(desc) else None, None, Some(title))))
  {
    ParseLineAt(s, file, n, prefix, styles, j);
    TitleNodeOf(feature, title, sep, desc, file, n);
  }

  lemma {:induction false} NoOrderLineAtOf(s: string, j: nat, file: string, n: nat, prefix: string, styles: seq<string>,
                                           feature: string, rest: string)
    requires PreambleEnds(s, styles, prefix + "-") == [j]
    requires TitleAt(s, j).None? && OrderedAt(s, j).None? && NoOrderAt(s, j) == Some(NoOrderMatch(feature, rest))
    requires NoSpace(feature) && rest != [] && NoSpace(rest)
    ensures var r := ParseLine(s, file, n, prefix, styles);
      r.Some? && Carries(r.value, feature, Step, None, Some(Meta(Some(rest), None, None)))
  {
    ParseLineAt(s, file, n, prefix, styles, j);
    SolidPlain(rest);
    NoOrderNodeOf(feature, rest, file, n);
  }

  // ---------------------------------------------------------------------
  // Mark lines, which parseText tries after parseLine

  /** `lead style gap markPrefix`, or the same followed by `- pad desc` when there is a desc. */
  function MarkLine(lead: string, style: string, gap: string, markPrefix: string, pad: string, desc: string): string {
    lead + style + gap + markPrefix + MarkTail(pad, desc)
  }

  function MarkTail(pad: string, desc: string): string {
    if desc == [] then [] else "-" + pad + desc
  }

  /**
    A mark line that holds no `prefix-` (in any case) contributes a `MARK`
    node without an order, whose meta is the trimmed desc or absent.
  */
  lemma {:induction false} MarkLineParses(lead: string, style: string, gap: string, markPrefix: string,
                                          pad: string, desc: string, prefix: string, file: string, n: nat)
    requires PlainPreamble(lead, style, gap, markPrefix) && markPrefix != []
    requires AllSpace(pad) && (desc == [] || !IsSpace(desc[0])) && NoLineTerminator(desc)
    requires !ContainsIgnoreCase(MarkLine(lead, style, gap, markPrefix, pad, desc), prefix + "-")
    ensures var r := LineNode(MarkLine(lead, style, gap, markPrefix, pad, desc), file, n, prefix, [style], markPrefix);
      r.Some? && Carries(r.value, "MARK", Mark, None, DescMeta(Trim(desc)))
  {
    var s := MarkLine(lead, style, gap, markPrefix, pad, desc);
    var j := |lead| + |style| + |gap| + |markPrefix|;
    PreambleOf(lead, style, gap, markPrefix, MarkTail(pad, desc));
    assert s[j..] == MarkTail(pad, desc);
    MarkAtTail(s, j, pad, desc);
    MarkBodyParses(s, j, file, n, prefix, [style], markPrefix, desc);
  }

  lemma {:induction false} MarkAtTail(s: string, j: nat, pad: string, desc: string)
    requires j <= |s| && s[j..] == MarkTail(pad, desc)
    requires AllSpace(pad) && (desc == [] || !IsSpace(desc[0])) && NoLineTerminator(desc)
    ensures MarkAt(s, j) == Some(if desc == [] then None else Some(desc))
  {
    if desc != [] {
      assert "-" + pad + desc == "-" + (pad + desc);
      Piece(s, j, "-", pad + desc);
      Piece(s, j + 1, pad, desc);
      SpacesPiece(s, j + 1, pad);
      var p := j + 1 + |pad|;
      assert s[p] == desc[0] by { assert s[p..][0] == s[p]; }
      SpaceRunTo(s, j + 1, p);
      assert s[j + 0] == '-';
    }
  }

  lemma {:induction false} MarkBodyParses(s: string, j: nat, file: string, n: nat, prefix: string, styles: seq<string>,
                                          markPrefix: string, desc: string)
    requires PreambleEnds(s, styles, markPrefix) == [j]
    requires MarkAt(s, j) == Some(if desc == [] then None else Some(desc))
    requires !ContainsIgnoreCase(s, prefix + "-")
    ensures var r := LineNode(s, file, n, prefix, styles, markPrefix);
      r.Some? && Carries(r.value, "MARK", Mark, None, DescMeta(Trim(desc)))
  {
    ParseLineNeedsKeyword(s, file, n, prefix, styles);
    FirstMatchOne(j, j => MarkAt(s, j));
    if desc == [] {
      TrimSpaceFree(desc);
    }
  }

  // ---------------------------------------------------------------------
  // Order tokens

  /**
    The dotted string of a non-empty path is an order token, and parsing it
    gives the path back.
  */
  lemma {:induction false} OrderRoundTrip(levels: seq<nat>)
    requires levels != []
    ensures IsOrderToken(LevelsToString(levels)) && DigitsAndDots(LevelsToString(levels))
    ensures ParseOrder(LevelsToString(levels)) == Some(OrderParts(levels))
  {
    var t := LevelsToString(levels);
    LevelsDotted(t, 0, levels);
    OrderTokenDigits(t);
    SplitLevelsToString(levels);
    var parts := LevelStrings(levels);
    forall i | 0 <= i < |levels| ensures DecimalValue(parts[i]) == levels[i] {
      DecimalValueOfNatToString(levels[i]);
    }
    assert ParseOrder(t).value.levels == levels;
  }

  /** From `k`, where the path's dotted string runs to the end of `s`, the digit and dot scan reaches the end. */
  lemma {:induction false} LevelsDotted(s: string, k: nat, levels: seq<nat>)
    requires levels != [] && k <= |s| && s[k..] == LevelsToString(levels)
    ensures k < |s| && IsDigit(s[k]) && DottedEnd(s, DigitRunEnd(s, k)) == |s|
    decreases |levels|, 1
  {
    if |levels| == 1 {
      assert levels == [levels[0]];
      LastLevelDotted(s, k, levels[0]);
    } else {
      var m := NextLevelAt(s, k, levels);
      LaterLevelsDotted(s, k, m, levels[1..]);
    }
  }

  lemma {:induction false} LaterLevelsDotted(s: string, k: nat, m: nat, rest: seq<nat>)
    requires k < |s| && IsDigit(s[k]) && DigitRunEnd(s, k) == m
    requires m < |s| && s[m] == '.' && rest != [] && s[m + 1..] == LevelsToString(rest)
    ensures DottedEnd(s, DigitRunEnd(s, k)) == |s|
    decreases |rest| + 1, 0
  {
    var k' := m + 1;
    LevelsDotted(s, k', rest);
    assert k' < |s| && IsDigit(s[k']) && DottedEnd(s, DigitRunEnd(s, k')) == |s|;
    DottedFromNext(s, k, m);
  }

  /** A last numeral runs to the end of the text. */
  lemma LastLevelDotted(s: string, k: nat, level: nat)
    requires k <= |s| && s[k..] == LevelsToString([level])
    ensures k < |s| && IsDigit(s[k]) && DottedEnd(s, DigitRunEnd(s, k)) == |s|
  {
    var d := NatToString(level);
    assert s[k..] == d + [];
    NumeralAt(s, k, d, []);
  }

  /** Before a later level: the first numeral, then a dot at `m`, then the rest of the levels. */
  lemma NextLevelAt(s: string, k: nat, levels: seq<nat>) returns (m: nat)
    requires |levels| > 1 && k <= |s| && s[k..] == LevelsToString(levels)
    ensures k < |s| && IsDigit(s[k]) && DigitRunEnd(s, k) == m
    ensures m < |s| && s[m] == '.' && s[m + 1..] == LevelsToString(levels[1..])
  {
    var d := NatToString(levels[0]);
    var rest := LevelsToString(levels[1..]);
    LevelsSplit(levels);
    NumeralAt(s, k, d, "." + rest);
    m := k + |d|;
    Piece(s, m, ".", rest);
    assert s[m] == '.' by { assert s[m + 0] == "."[0]; }
  }

  /** A numeral ending at a dot that a dotted token reaching the end follows: the whole token reaches the end. */
  lemma DottedFromNext(s: string, k: nat, m: nat)
    requires k < |s| && DigitRunEnd(s, k) == m && m + 1 < |s| && s[m] == '.' && IsDigit(s[m + 1])
    requires DottedEnd(s, DigitRunEnd(s, m + 1)) == |s|
    ensures DottedEnd(s, DigitRunEnd(s, k)) == |s|
  {
    assert DottedEnd(s, m) == DottedEnd(s, DigitRunEnd(s, m + 1));
  }


  lemma {:induction false} LevelsSplit(levels: seq<nat>)
    requires |levels| > 1
    ensures LevelsToString(levels) == NatToString(levels[0]) + ("." + LevelsToString(levels[1..]))
  {
    assert LevelStrings(levels[1..]) == LevelStrings(levels)[1..];
  }

  /** A numeral `d` at `k` that is not followed by a digit is one digit run. */
  lemma {:induction false} NumeralAt(s: string, k: nat, d: string, tail: string)
    requires k <= |s| && s[k..] == d + tail
    requires d != [] && AllDigits(d) && (tail == [] || !IsDigit(tail[0]))
    ensures k < |s| && IsDigit(s[k]) && DigitRunEnd(s, k) == k + |d| && s[k + |d|..] == tail
  {
    Piece(s, k, d, tail);
    var m := k + |d|;
    forall i | k <= i < m ensures IsDigit(s[i]) {
      assert s[k + (i - k)] == d[i - k];
    }
    if m < |s| {
      assert s[m] == tail[0] by { assert s[m..][0] == s[m]; }
    }
    assert s[k + 0] == d[0];
    DigitRunTo(s, k, m);
  }
}
