/** Line search and `-U` search compared: for a pattern that cannot match a
    newline they find the same lines. */
module SearchModes {
  import opened Bytes
  import opened Blocks
  import opened FileMatching
  import opened LineIndexing
  import opened Matchers
  import opened Rewriting
  import opened Spans
  import Hir
  import Pattern
  import Prescan
  import Regex
  import SpanOrder

  /** A match without a newline stays on the line it starts on. */
  lemma OneLine(index: LineIndex, sp: Span, p: nat)
    requires index.Valid() && index.content != [] && sp.start <= p <= sp.end <= |index.content|
    requires Hir.NoNewline(index.content, sp.start, sp.end)
    ensures index.LineOf(p) == index.LineOf(sp.start)
    ensures index.LineOf(sp.start) + 1 < index.LineCount() ==> sp.end < index.LineStart(index.LineOf(sp.start) + 1)
  {
    hide IsLineTable;
    var li := index.LineOf(sp.start);
    index.LineOfInverts(sp.start, li);
    index.LineShape(li);
    index.LineOfInverts(p, li);
  }

  lemma OneLineCovers(index: LineIndex, sp: Span, li: nat)
    requires index.Valid() && index.content != [] && sp.start <= sp.end <= |index.content|
    requires Hir.NoNewline(index.content, sp.start, sp.end)
    ensures Covers(index, sp, li) <==> li == index.LineOf(sp.start)
  {
    hide IsLineTable;
    index.LineOfInverts(sp.start, index.LineOf(sp.start));
    if sp.start < sp.end {
      OneLine(index, sp, sp.end - 1);
    }
  }

  /** A line has pieces exactly when some span covers it. */
  lemma {:induction false} PiecesOfCovering(index: LineIndex, spans: seq<Span>, li: nat)
    requires index.Valid()
    ensures PiecesOn(index, spans, li) != [] <==> exists k | 0 <= k < |spans| :: Covers(index, spans[k], li)
  {
    hide IsLineTable, Covers;
    if spans != [] {
      PiecesOfCovering(index, spans[..|spans| - 1], li);
    }
  }

  /** What is left of a line after its text when no carriage return was stripped. */
  predicate NoStrippedReturn(index: LineIndex, li: nat)
    requires index.Valid()
  {
    CR !in index.content[index.LineEnd(li)..index.LineStart(li + 1)]
  }

  /** Matches that stay on line `li` end on its text, but for the empty match past
      a final newline, if no carriage return was stripped from it. */
  lemma EndsOnText(index: LineIndex, sp: Span, li: nat)
    requires index.Valid() && index.content != [] && sp.start <= sp.end <= |index.content|
    requires Hir.NoNewline(index.content, sp.start, sp.end)
    requires li == index.LineOf(sp.start) && NoStrippedReturn(index, li)
    requires index.content[|index.content| - 1] == NL ==> sp.start < |index.content|
    ensures index.LineStart(li) <= sp.start <= sp.end <= index.LineEnd(li)
  {
    hide IsLineTable;
    index.LineOfInverts(sp.start, li);
    OneLine(index, sp, sp.end);
    index.LineShape(li);
    var e, next := index.LineEnd(li), index.LineStart(li + 1);
    var t := index.content[e..next];
    assert t != [] ==> t[0] == index.content[e];
    assert t == [NL] || t == [];
    assert t == [NL] ==> e + 1 == next && index.content[e] == NL;
    assert li + 1 == index.LineCount() ==> next == |index.content|;
  }

  /** The empty match past a final newline is never kept. */
  lemma KeptBeforeEnd(m: Matcher, content: bytes, k: nat)
    requires m.Valid() && k < |MatchesOnLines(m, content)| && content != [] && content[|content| - 1] == NL
    ensures MatchesOnLines(m, content)[k].start < |content|
  {
    hide Matcher.FindSpans;
    var all := m.FindSpans(content);
    m.SpansOrdered(content);
    var sp := all[k];
    assert k < |all| - 1 ==> sp.end < all[|all| - 1].end <= |content|;
    assert k == |all| - 1 ==> sp.start != |content| || sp.end != |content|;
  }

  /** Spans as a newline-free pattern leaves them: none contains a newline or stands
      past a final one. */
  ghost predicate Plain(content: bytes, spans: seq<Span>) {
    forall k | 0 <= k < |spans| :: PlainSpan(content, spans[k])
  }

  ghost predicate PlainSpan(content: bytes, sp: Span) {
    && sp.start <= sp.end <= |content| && Hir.NoNewline(content, sp.start, sp.end)
    && (content != [] && content[|content| - 1] == NL ==> sp.start < |content|)
  }

  lemma KeptArePlain(m: Matcher, buf: bytes)
    requires m.Valid() && !m.CanMatchNewline() && buf != []
    ensures Plain(buf, MatchesOnLines(m, buf))
  {
    hide Matcher.CanMatchNewline, Matcher.FindSpans, Hir.NoNewline, MatchesOnLines;
    var kept := MatchesOnLines(m, buf);
    MatchesAreOnLines(m, buf);
    m.NewlineFreeSpans(buf);
    forall k | 0 <= k < |kept|
      ensures PlainSpan(buf, kept[k])
    {
      assert kept[k] == m.FindSpans(buf)[k] && m.FindSpans(buf)[k] in m.FindSpans(buf);
      if buf[|buf| - 1] == NL {
        KeptBeforeEnd(m, buf, k);
      }
    }
  }

  /** A match that starts on a line's text has a kept match on that line. */
  lemma BufferMatchIsKept(index: LineIndex, m: Matcher, li: nat, p: nat)
    requires index.Valid() && m.Valid() && !m.CanMatchNewline() && m.Standard?
    requires li < index.LineCount() && index.LineStart(li) <= p <= index.LineEnd(li)
    requires m.re.MatchStartsAt(index.content, p)
    ensures PiecesOn(index, MatchesOnLines(m, index.content), li) != []
  {
    hide IsLineTable, PiecesOn, Covers, MatchesOnLines;
    var buf := index.content;
    m.re.IterationCovers(buf, 0, None, p);
    var k := ReachingMatch(m, buf, p);
    var sp := m.FindSpans(buf)[k];
    index.LineBorders(li, p);
    index.LineShape(li);
    OneLine(index, sp, p);
    OneLineCovers(index, sp, li);
    ReachingIsKept(index, m, li, p, k);
    PiecesOfCovering(index, MatchesOnLines(m, buf), li);
  }

  /** A matching line has a match of the whole buffer on it. */
  lemma LineMatchIsKept(index: LineIndex, m: Matcher, li: nat)
    requires index.Valid() && m.Valid() && !m.CanMatchNewline()
    requires li < index.LineCount() && m.IsMatch(index.LineText(li))
    ensures PiecesOn(index, MatchesOnLines(m, index.content), li) != []
  {
    hide IsLineTable, Hir.AnchorFree, PiecesOn, MatchesOnLines;
    NewlineFreeMatcher(m);
    var p := Prescan.LineMatchInBuffer(index, m.re, li);
    BufferMatchIsKept(index, m, li, p);
  }

  lemma NewlineFreeMatcher(m: Matcher)
    requires m.Valid() && !m.CanMatchNewline()
    ensures m.Standard? && Hir.AnchorFree(m.re.Expr())
  {
    Pattern.NewlineAnalysisIgnoresFlags(m.re.ast, m.re.flags);
    Hir.NewlineFreeIsAnchorFree(m.re.Expr());
  }

  lemma ReachingMatch(m: Matcher, buf: bytes, p: nat) returns (k: nat)
    requires m.Valid() && m.Standard? && !m.CanMatchNewline()
    requires m.re.CoveredBy(m.re.Matched(buf), p)
    ensures k < |m.FindSpans(buf)|
    ensures var sp := m.FindSpans(buf)[k]; sp.start <= p <= sp.end <= |buf| && Hir.NoNewline(buf, sp.start, sp.end)
  {
    k :| 0 <= k < |m.FindSpans(buf)| && m.FindSpans(buf)[k].start <= p <= m.FindSpans(buf)[k].end;
    m.NewlineFreeSpans(buf);
    assert m.FindSpans(buf)[k] in m.FindSpans(buf);
  }

  lemma TextBeforeEnd(index: LineIndex, li: nat, p: nat)
    requires index.Valid() && li < index.LineCount() && index.LineStart(li) <= p <= index.LineEnd(li)
    ensures index.content != [] && (index.content[|index.content| - 1] == NL ==> p < |index.content|)
  {
    hide IsLineTable;
    index.LineShape(li);
  }

  /** A match that reaches a line's text is not the one past a final newline. */
  lemma ReachingIsKept(index: LineIndex, m: Matcher, li: nat, p: nat, k: nat)
    requires index.Valid() && m.Valid() && li < index.LineCount()
    requires index.LineStart(li) <= p <= index.LineEnd(li) && k < |m.FindSpans(index.content)|
    requires m.FindSpans(index.content)[k].start <= p
    ensures k < |MatchesOnLines(m, index.content)|
              && MatchesOnLines(m, index.content)[k] == m.FindSpans(index.content)[k]
  {
    hide IsLineTable, Matcher.FindSpans, LineIndex.LineStart, LineIndex.LineEnd;
    TextBeforeEnd(index, li, p);
  }

  /** One of the plain spans with a piece on such a line lies on its text. */
  lemma OneOnText(index: LineIndex, spans: seq<Span>, li: nat) returns (k: nat)
    requires index.Valid() && index.content != [] && Plain(index.content, spans)
    requires PiecesOn(index, spans, li) != [] && NoStrippedReturn(index, li)
    ensures k < |spans| && li == index.LineOf(spans[k].start)
    ensures index.LineStart(li) <= spans[k].start <= spans[k].end <= index.LineEnd(li)
  {
    hide IsLineTable, PiecesOn, Covers, NoStrippedReturn, Hir.NoNewline;
    PiecesOfCovering(index, spans, li);
    k :| 0 <= k < |spans| && Covers(index, spans[k], li);
    assert PlainSpan(index.content, spans[k]);
    OneLineCovers(index, spans[k], li);
    EndsOnText(index, spans[k], li);
  }

  /** A line with a match of the whole buffer on it matches, unless a carriage
      return was stripped from it. */
  lemma KeptLineMatches(index: LineIndex, m: Matcher, li: nat)
    requires index.Valid() && m.Valid() && !m.CanMatchNewline()
    requires PiecesOn(index, MatchesOnLines(m, index.content), li) != [] && NoStrippedReturn(index, li)
    ensures li < index.LineCount() && m.IsMatch(index.LineText(li))
  {
    hide IsLineTable, Hir.AnchorFree, PiecesOn, NoStrippedReturn, MatchesOnLines, Hir.IsLineSlice, Regex.Regex.Reports,
         Matcher.CanMatchNewline, Plain;
    var kept := MatchesOnLines(m, index.content);
    NewlineFreeMatcher(m);
    MatchesAreOnLines(m, index.content);
    NoPieces(index);
    KeptArePlain(m, index.content);
    var k := OneOnText(index, kept, li);
    var sp := kept[k];
    assert sp == m.FindSpans(index.content)[k];
    index.LineOfInverts(sp.start, li);
    Prescan.LineIsSlice(index, li);
    m.re.IterationInOrder(index.content, 0, None);
    ReportedOnLine(m.re, index.content, index.LineStart(li), index.LineEnd(li), sp);
  }

  /** A report of the buffer that lies on a line is a match of the line. */
  lemma ReportedOnLine(re: Regex.Regex, buf: bytes, a: nat, b: nat, sp: Span)
    requires re.Valid() && Hir.AnchorFree(re.Expr()) && Hir.IsLineSlice(buf, a, b) && b <= |buf|
    requires re.Reports(buf, sp) && a <= sp.start <= sp.end <= b
    ensures re.IsMatch(buf[a..b])
  {
    hide Hir.AnchorFree, Hir.IsLineSlice, Regex.Regex.Reports;
    var local := Span(sp.start - a, sp.end - a);
    re.ReportsIsLocal(buf, a, b, local);
    re.MatchedEmpty(buf[a..b]);
    assert re.MatchStartsAt(buf[a..b], local.start);
  }

  // ---------------------------------------------------------------------------
  // Which lines tell the searches apart

  /** The bytes a pattern must escape to mean themselves. */
  const META: set<byte> := {35, 36, 38, 40, 41, 42, 43, 45, 46, 63, 91, 92, 93, 94, 123, 124, 125, 126}

  /** The pattern for `text` itself. */
  function Exact(text: bytes): Pattern.Ast {
    if text == [] then Pattern.Nothing
    else Pattern.Then(ExactByte(text[0]), Exact(text[1..]))
  }

  function ExactByte(b: byte): Pattern.Ast {
    if b in META then Pattern.Escaped(b) else Pattern.Verbatim([b], Pattern.Folding([[(b, b)]], [[(b, b)]]))
  }

  lemma {:induction false} ExactIsPlain(text: bytes, f: Pattern.Flags)
    ensures Pattern.WellSpelled(Exact(text))
    ensures !f.ignoreCase && NL !in text ==> !Hir.CanMatchNewline(Pattern.Lower(Exact(text), f))
  {
    if text != [] {
      ExactIsPlain(text[1..], f);
      OneIsPlain(text[0], f);
      Pattern.PairNewline(Pattern.Lower(ExactByte(text[0]), f), Pattern.Lower(Exact(text[1..]), f));
    }
  }

  lemma OneIsPlain(b: byte, f: Pattern.Flags)
    ensures Pattern.WellSpelled(ExactByte(b))
    ensures !f.ignoreCase ==> Pattern.Lower(ExactByte(b), f) == Hir.Literal([b])
    ensures b != NL ==> !Hir.CanMatchNewline(Hir.Literal([b]))
  {
    var single := [(b, b)];
    assert single[0].0 == b;
    assert Hir.InRanges(single, NL) <==> b == NL;
    assert [single][0] == single;
  }

  /** It matches that text and nothing else. */
  lemma {:induction false} ExactMatches(words: Hir.WordTable, text: bytes, f: Pattern.Flags, hay: bytes, s: nat, e: nat)
    requires s <= e <= |hay| && !f.ignoreCase
    ensures Hir.Matches(words, Pattern.Lower(Exact(text), f), hay, s, e) <==> hay[s..e] == text
    decreases |text|
  {
    if text != [] {
      var head: Hir.Hir, tail := Hir.Literal([text[0]]), Pattern.Lower(Exact(text[1..]), f);
      assert Pattern.Lower(Exact(text), f) == Hir.Concat([head, tail]);
      assert Hir.Matches(words, Hir.Concat([head, tail]), hay, s, e) == Hir.MatchesSeq(words, [head, tail], hay, s, e);
      ByteThen(words, text[0], tail, hay, s, e);
      if s < e {
        ExactMatches(words, text[1..], f, hay, s + 1, e);
        assert hay[s..e] == [hay[s]] + hay[s + 1..e];
      }
      assert text == [text[0]] + text[1..];
    }
  }

  lemma ByteThen(words: Hir.WordTable, b: byte, y: Hir.Hir, hay: bytes, s: nat, e: nat)
    requires s <= e <= |hay|
    ensures Hir.MatchesSeq(words, [Hir.Literal([b]), y], hay, s, e)
       <==> s < e && hay[s] == b && Hir.Matches(words, y, hay, s + 1, e)
  {
    var x := Hir.Literal([b]);
    assert [x, y][1..] == [y];
    forall m | s <= m <= e
      ensures Hir.Matches(words, x, hay, s, m) <==> m == s + 1 && hay[s] == b
    {
      ByteMatches(words, b, hay, s, m);
    }
    if s < e {
      Alone(words, y, hay, s + 1, e);
    }
  }

  lemma ByteMatches(words: Hir.WordTable, b: byte, hay: bytes, s: nat, e: nat)
    requires s <= e <= |hay|
    ensures Hir.Matches(words, Hir.Literal([b]), hay, s, e) <==> e == s + 1 && hay[s] == b
  {
    assert |hay[s..e]| == e - s;
    assert e > s ==> hay[s..e][0] == hay[s];
  }

  lemma Alone(words: Hir.WordTable, y: Hir.Hir, hay: bytes, s: nat, e: nat)
    requires s <= e <= |hay|
    ensures Hir.MatchesSeq(words, [y], hay, s, e) <==> Hir.Matches(words, y, hay, s, e)
  {
    assert [y][1..] == [];
    assert Hir.MatchesSeq(words, [], hay, e, e);
  }

  /** The searches agree on line `li` whatever the pattern. */
  ghost predicate ModesAgreeOn(index: LineIndex, li: nat)
    requires index.Valid()
  {
    forall m: Matcher | m.Valid() && !m.CanMatchNewline() ::
      m.IsMatch(index.LineText(li)) <==> PiecesOn(index, MatchesOnLines(m, index.content), li) != []
  }

  /** A line's text with the carriage return after it is found by `-U` alone. */
  lemma ReturnTellsApart(index: LineIndex, li: nat, m: Matcher)
    requires index.Valid() && li < index.LineCount() && !NoStrippedReturn(index, li)
    requires m.Valid() && m.Standard? && m.re.ast == Exact(index.LineText(li) + [CR]) && !m.re.flags.ignoreCase
    ensures !m.CanMatchNewline() && !m.IsMatch(index.LineText(li))
    ensures PiecesOn(index, MatchesOnLines(m, index.content), li) != []
  {
    hide IsLineTable, PiecesOn, MatchesOnLines, Exact, Hir.Matches, Hir.CanMatchNewline, Pattern.Lower;
    var buf, line, a, b := index.content, index.LineText(li), index.LineStart(li), index.LineEnd(li);
    var text := line + [CR];
    index.LineShape(li);
    TextThenReturn(index, li);
    ExactIsPlain(text, Pattern.AnalysisFlags(m.re.flags));
    ExactMatches(m.re.words, text, m.re.flags, buf, a, b + 1);
    assert m.re.Reports(buf, Span(a, b + 1));
    assert m.re.MatchStartsAt(buf, a);
    BufferMatchIsKept(index, m, li, a);
    forall p: nat, e: nat | p <= e <= |line|
      ensures !Hir.Matches(m.re.words, m.re.Expr(), line, p, e)
    {
      ExactMatches(m.re.words, text, m.re.flags, line, p, e);
      assert |line[p..e]| < |text|;
    }
    NothingReported(m.re, line);
  }

  lemma TextThenReturn(index: LineIndex, li: nat)
    requires index.Valid() && li < index.LineCount() && !NoStrippedReturn(index, li)
    ensures index.LineEnd(li) < |index.content|
    ensures index.content[index.LineStart(li)..index.LineEnd(li) + 1] == index.LineText(li) + [CR]
  {
    hide IsLineTable;
    index.LineShape(li);
    var buf, b := index.content, index.LineEnd(li);
    var t := buf[b..index.LineStart(li + 1)];
    assert t[0] == buf[b];
  }

  lemma NothingReported(re: Regex.Regex, hay: bytes)
    requires re.Valid() && forall p: nat, e: nat | p <= e <= |hay| :: !Hir.Matches(re.words, re.Expr(), hay, p, e)
    ensures !re.IsMatch(hay)
  {
    hide Hir.Matches, Pattern.Lower;
    re.MatchedEmpty(hay);
    forall p: nat, e: nat
      ensures !re.Reports(hay, Span(p, e))
    {
    }
  }

  /** Exactly the lines from which no carriage return was stripped are found alike
      by both searches with every pattern that cannot match a newline. */
  lemma ModesAgreeExactly(index: LineIndex, li: nat)
    requires index.Valid() && li < index.LineCount()
    ensures ModesAgreeOn(index, li) <==> NoStrippedReturn(index, li)
  {
    hide IsLineTable, PiecesOn, MatchesOnLines, NoStrippedReturn, Matcher.IsMatch;
    forall m: Matcher | m.Valid() && !m.CanMatchNewline() && NoStrippedReturn(index, li)
      ensures m.IsMatch(index.LineText(li)) <==> PiecesOn(index, MatchesOnLines(m, index.content), li) != []
    {
      if m.IsMatch(index.LineText(li)) {
        LineMatchIsKept(index, m, li);
      }
      if PiecesOn(index, MatchesOnLines(m, index.content), li) != [] {
        KeptLineMatches(index, m, li);
      }
    }
    if !NoStrippedReturn(index, li) {
      var ast := Exact(index.LineText(li) + [CR]);
      var words: Hir.WordTable := (_: bytes) => false;
      var flags := Pattern.Flags(true, false, false, true);
      ExactIsPlain(index.LineText(li) + [CR], flags);
      Regex.EngineExists(ast, flags, words);
      var re: Regex.Regex :| re.Valid() && re.ast == ast && re.flags == flags && re.words == words;
      ReturnTellsApart(index, li, Standard(re));
    }
  }

  // ---------------------------------------------------------------------------
  // Limits and clipping

  lemma {:induction false} SamePieces(index: LineIndex, x: seq<Span>, y: seq<Span>, li: nat)
    requires index.Valid() && |x| == |y|
    requires forall k | 0 <= k < |x| :: PieceIn(index, x[k], li) == PieceIn(index, y[k], li)
    ensures PiecesOn(index, x, li) == PiecesOn(index, y, li)
  {
    hide IsLineTable, PieceIn;
    if x != [] {
      SamePieces(index, x[..|x| - 1], y[..|y| - 1], li);
    }
  }

  /** Clipping takes nothing from plain spans on a line that lost no carriage return. */
  lemma ClipKeepsPieces(index: LineIndex, spans: seq<Span>, li: nat)
    requires index.Valid() && index.content != [] && NoStrippedReturn(index, li) && Plain(index.content, spans)
    ensures PiecesOn(index, ClipSpansToStartLine(index, spans), li) == PiecesOn(index, spans, li)
  {
    hide IsLineTable, NoStrippedReturn, Hir.NoNewline, PiecesOn, Covers, Piece;
    var clipped := ClipSpansToStartLine(index, spans);
    forall k | 0 <= k < |spans|
      ensures PieceIn(index, clipped[k], li) == PieceIn(index, spans[k], li)
    {
      assert PlainSpan(index.content, spans[k]);
      OneLineCovers(index, spans[k], li);
      ClippedStaysOnStartLine(index, spans[k]);
      if li == index.LineOf(spans[k].start) {
        EndsOnText(index, spans[k], li);
        assert clipped[k] == spans[k];
      }
    }
    SamePieces(index, clipped, spans, li);
  }

  /** The first match a limit drops opens a block beyond it. */
  lemma LimitCutsAtBlock(index: LineIndex, m: Matcher, opts: MatchOptions, kept: seq<Span>)
    requires index.Valid() && m.Valid() && IsKept(index, m, opts, kept)
    ensures var all := MatchesOnLines(m, index.content);
            && kept <= all
            && (kept != all ==>
                  && |kept| < |all| && FirstLine(index, all[|kept|]) > Reach(index, kept)
                  && opts.maxCount == Some(BlockCount(index, kept)))
  {
    hide IsLineTable, MatchesOnLines, FirstLine, Reach, BlockCount;
    var all := MatchesOnLines(m, index.content);
    if kept != all {
      BlockSnoc(index, all, |kept|);
      assert all[..|kept|] == kept;
    }
  }

  /** A limit takes nothing from the lines it keeps. */
  lemma LimitKeepsLines(index: LineIndex, all: seq<Span>, kept: seq<Span>, li: nat)
    requires index.Valid() && kept <= all && forall a, b | 0 <= a < b < |all| :: all[a].start <= all[b].start
    requires kept != all ==> |kept| < |all| && FirstLine(index, all[|kept|]) > Reach(index, kept)
    ensures PiecesOn(index, kept, li) != [] ==> PiecesOn(index, kept, li) == PiecesOn(index, all, li)
    ensures PiecesOn(index, kept, li) == [] && PiecesOn(index, all, li) != [] ==>
              kept != all && forall l: nat | PiecesOn(index, kept, l) != [] :: l < li
  {
    hide IsLineTable, PiecesOn, FirstLine, Reach, LastPieceLine;
    var rest := all[|kept|..];
    assert all == kept + rest;
    PiecesAppend(index, kept, rest, li);
    if PiecesOn(index, rest, li) != [] {
      PiecesOfCovering(index, rest, li);
      var j :| 0 <= j < |rest| && Covers(index, rest[j], li);
      forall l: nat | PiecesOn(index, kept, l) != []
        ensures l < li
      {
        PiecesOfCovering(index, kept, l);
        var i :| 0 <= i < |kept| && Covers(index, kept[i], l);
        assert all[..|kept|] == kept && all[i] == kept[i] && all[|kept| + j] == rest[j];
        KeptAndDroppedShareNoLine(index, all, |kept|, i, |kept| + j);
        CoversWithin(index, kept[i], l);
        CoversWithin(index, rest[j], li);
      }
    }
  }

  lemma CoversWithin(index: LineIndex, sp: Span, li: nat)
    requires index.Valid() && Covers(index, sp, li)
    ensures FirstLine(index, sp) <= li <= LastLine(index, sp)
  {
  }

  // ---------------------------------------------------------------------------
  // What a search of the whole buffer keeps

  /** Not a line of the buffer has lost a carriage return. */
  ghost predicate NoReturns(index: LineIndex)
    requires index.Valid()
  {
    forall li: nat | li < index.LineCount() :: NoStrippedReturn(index, li)
  }

  /** The kept matches, clipped or not, are what the hits of a `-U` search group. */
  lemma MultilineGroups(fm: FileMatches, m: Matcher, opts: MatchOptions, expand: Expander,
                        kept: seq<Span>, members: seq<seq<Expansion>>) returns (spans: seq<Span>)
    requires fm.index.Valid() && m.Valid() && FoundMultiline(fm, m, opts, expand, kept, members)
    ensures IsGrouping(fm.index, spans, fm.hits)
    ensures spans == kept || spans == ClipSpansToStartLine(fm.index, kept)
  {
    hide IsGrouping, AreBlocks, Expansions, IsKept, LinesOf, Matcher.CanMatchNewline;
    spans := kept;
    if !(opts.replace.Some? && (opts.reportReplacements || PrintsBlocks(m, opts, kept))) && opts.vimgrep {
      spans := ClipSpansToStartLine(fm.index, kept);
    }
  }

  /** A prefix of the matches on lines is as plain as all of them. */
  lemma LimitedArePlain(index: LineIndex, m: Matcher, opts: MatchOptions, kept: seq<Span>)
    requires index.Valid() && m.Valid() && !m.CanMatchNewline() && IsKept(index, m, opts, kept)
    ensures kept <= MatchesOnLines(m, index.content) && SpansInOrder(MatchesOnLines(m, index.content), |index.content|)
    ensures index.content == [] ==> MatchesOnLines(m, index.content) == []
    ensures Plain(index.content, kept)
  {
    hide IsLineTable, Matcher.CanMatchNewline, MatchesOnLines, PlainSpan, BlockCount;
    MatchesAreOnLines(m, index.content);
    if index.content != [] {
      KeptArePlain(m, index.content);
    }
  }

  /** A `-U` search hits the lines with a piece of a match it keeps, whether or not
      the matches are clipped to their first line. */
  lemma KeptLinesHit(fm: FileMatches, m: Matcher, opts: MatchOptions, expand: Expander,
                     kept: seq<Span>, members: seq<seq<Expansion>>, li: nat)
    requires fm.index.Valid() && m.Valid() && !m.CanMatchNewline() && FoundMultiline(fm, m, opts, expand, kept, members)
    ensures HitOn(fm.hits, li) <==> PiecesOn(fm.index, kept, li) != []
  {
    hide IsLineTable, PiecesOn, MatchesOnLines, RangesOn, Covers, Matcher.CanMatchNewline, Plain;
    var spans := MultilineGroups(fm, m, opts, expand, kept, members);
    LimitedArePlain(fm.index, m, opts, kept);
    SpansHit(fm.index, spans, fm.hits, li);
    ClippedOnSameLines(fm.index, kept, li);
  }

  lemma SpansHit(index: LineIndex, spans: seq<Span>, hits: seq<LineHit>, li: nat)
    requires index.Valid() && IsGrouping(index, spans, hits)
    ensures HitOn(hits, li) <==> PiecesOn(index, spans, li) != []
  {
    hide PiecesOn, RangesOn;
  }

  /** Clipping plain spans leaves them on the same lines. */
  lemma ClippedOnSameLines(index: LineIndex, spans: seq<Span>, li: nat)
    requires index.Valid() && Plain(index.content, spans) && (index.content == [] ==> spans == [])
    ensures PiecesOn(index, ClipSpansToStartLine(index, spans), li) != [] <==> PiecesOn(index, spans, li) != []
  {
    hide IsLineTable, PiecesOn, Covers, Hir.NoNewline;
    var clipped := ClipSpansToStartLine(index, spans);
    PiecesOfCovering(index, spans, li);
    PiecesOfCovering(index, clipped, li);
    forall k | 0 <= k < |spans|
      ensures Covers(index, spans[k], li) <==> Covers(index, clipped[k], li)
    {
      assert PlainSpan(index.content, spans[k]);
      OneLineCovers(index, spans[k], li);
      ClippedStaysOnStartLine(index, spans[k]);
    }
  }

  /** Whether the matches are clipped: `--vimgrep` without rewritten blocks and without
      replacements reported beside their lines. */
  ghost predicate Clips(m: Matcher, opts: MatchOptions, kept: seq<Span>) {
    opts.vimgrep && !(opts.replace.Some? && (opts.reportReplacements || PrintsBlocks(m, opts, kept)))
  }

  /** A `-U` search hits the lines its kept matches lie on, or only those they start on
      when it clips them. */
  lemma MultilineHitLines(fm: FileMatches, m: Matcher, opts: MatchOptions, expand: Expander,
                          kept: seq<Span>, members: seq<seq<Expansion>>, li: nat)
    requires fm.index.Valid() && m.Valid() && FoundMultiline(fm, m, opts, expand, kept, members)
    ensures HitOn(fm.hits, li)
       <==> exists i | 0 <= i < |kept| ::
              if Clips(m, opts, kept) then li == fm.index.LineOf(kept[i].start) else Covers(fm.index, kept[i], li)
  {
    hide IsLineTable, PiecesOn, MatchesOnLines, RangesOn, Covers, Matcher.CanMatchNewline, IsKept;
    var spans := GroupedSpans(fm, m, opts, expand, kept, members);
    KeptAreOk(fm.index, m, opts, kept);
    SpansHit(fm.index, spans, fm.hits, li);
    PiecesOfCovering(fm.index, spans, li);
    forall i | 0 <= i < |kept|
      ensures Clips(m, opts, kept) ==> (Covers(fm.index, spans[i], li) <==> li == fm.index.LineOf(kept[i].start))
    {
      ClippedStaysOnStartLine(fm.index, kept[i]);
    }
  }

  /** The spans of such a hit hold just the text bytes in a kept match, or in one that
      starts on the line. */
  lemma MultilineHitRanges(fm: FileMatches, m: Matcher, opts: MatchOptions, expand: Expander,
                           kept: seq<Span>, members: seq<seq<Expansion>>, k: nat, p: nat)
    requires Listed(fm) && m.Valid() && FoundMultiline(fm, m, opts, expand, kept, members)
    requires k < |fm.hits| && p < |fm.index.LineText(fm.hits[k].idx)|
    ensures var index, li := fm.index, fm.hits[k].idx;
            SpanOrder.Holds(fm.hits[k].spans, p)
            <==> exists i | 0 <= i < |kept| ::
                   && kept[i].start <= index.LineStart(li) + p < kept[i].end
                   && (Clips(m, opts, kept) ==> index.LineOf(kept[i].start) == li)
  {
    hide IsLineTable, PiecesOn, MatchesOnLines, RangesOn, BlocksListed, Matcher.CanMatchNewline, IsKept, Clips;
    var li := fm.hits[k].idx;
    var spans := GroupedSpans(fm, m, opts, expand, kept, members);
    KeptAreOk(fm.index, m, opts, kept);
    if Clips(m, opts, kept) {
      ClippedRanges(fm.index, kept, li, p);
    } else {
      RangesAreExact(fm.index, kept, li);
    }
  }

  lemma GroupedSpans(fm: FileMatches, m: Matcher, opts: MatchOptions, expand: Expander,
                     kept: seq<Span>, members: seq<seq<Expansion>>) returns (spans: seq<Span>)
    requires fm.index.Valid() && m.Valid() && FoundMultiline(fm, m, opts, expand, kept, members)
    ensures IsGrouping(fm.index, spans, fm.hits) && IsKept(fm.index, m, opts, kept)
    ensures spans == if Clips(m, opts, kept) then ClipSpansToStartLine(fm.index, kept) else kept
  {
    hide IsGrouping, AreBlocks, Expansions, IsKept, LinesOf, Matcher.CanMatchNewline;
    spans := if Clips(m, opts, kept) then ClipSpansToStartLine(fm.index, kept) else kept;
  }

  // ---------------------------------------------------------------------------
  // The first matching lines

  ghost predicate MatchingLine(index: LineIndex, m: Matcher, li: nat)
    requires index.Valid()
  {
    li < index.LineCount() && m.IsMatch(index.LineText(li))
  }

  /** The hits are on the first matching lines: all of them, or as many as the limit
      allows. */
  ghost predicate FirstLines(index: LineIndex, m: Matcher, max: Option<nat>, hits: seq<LineHit>)
    requires index.Valid()
  {
    && (forall j, k | 0 <= j < k < |hits| :: hits[j].idx < hits[k].idx)
    && (max.Some? ==> |hits| <= max.value)
    && (forall li: nat | HitOn(hits, li) :: MatchingLine(index, m, li))
    && (forall li: nat | MatchingLine(index, m, li) && !HitOn(hits, li) ::
          max == Some(|hits|) && forall l: nat | HitOn(hits, l) :: l < li)
  }

  /** There is one list of the first matching lines. */
  lemma FirstLinesSame(index: LineIndex, m: Matcher, max: Option<nat>, a: seq<LineHit>, b: seq<LineHit>)
    requires index.Valid() && FirstLines(index, m, max, a) && FirstLines(index, m, max, b)
    ensures forall li: nat :: HitOn(a, li) <==> HitOn(b, li)
  {
    forall li: nat
      ensures HitOn(a, li) <==> HitOn(b, li)
    {
      NotBeyond(index, m, max, a, b, li);
      NotBeyond(index, m, max, b, a, li);
    }
  }

  lemma NotBeyond(index: LineIndex, m: Matcher, max: Option<nat>, a: seq<LineHit>, b: seq<LineHit>, li: nat)
    requires index.Valid() && FirstLines(index, m, max, a) && FirstLines(index, m, max, b)
    ensures HitOn(a, li) ==> HitOn(b, li)
  {
    hide MatchingLine;
    CountLines(a);
    CountLines(b);
    if HitOn(a, li) && !HitOn(b, li) {
      OneMoreLine(a, b, li);
    }
  }

  /** With all lines of `b` and one after them, `a` is longer. */
  lemma OneMoreLine(a: seq<LineHit>, b: seq<LineHit>, li: nat)
    requires HitOn(a, li) && !HitOn(b, li) && |LinesHit(a)| == |a| && |LinesHit(b)| == |b|
    ensures (forall l: nat | HitOn(b, l) :: HitOn(a, l)) ==> |b| < |a|
  {
    if forall l: nat | HitOn(b, l) :: HitOn(a, l) {
      LinesHitHas(a, li);
      LinesHitHas(b, li);
      forall l | l in LinesHit(b)
        ensures l in LinesHit(a)
      {
        LinesHitHas(a, l);
        LinesHitHas(b, l);
      }
      SubsetSize(LinesHit(b) + {li}, LinesHit(a));
    }
  }

  function LinesHit(hits: seq<LineHit>): set<nat> {
    if hits == [] then {} else LinesHit(hits[..|hits| - 1]) + {hits[|hits| - 1].idx}
  }

  lemma {:induction false} LinesHitHas(hits: seq<LineHit>, li: nat)
    ensures li in LinesHit(hits) <==> HitOn(hits, li)
  {
    if hits != [] {
      var init, last := hits[..|hits| - 1], hits[|hits| - 1];
      LinesHitHas(init, li);
      HitOnSnoc(init, last);
      assert hits == init + [last];
    }
  }

  lemma {:induction false} CountLines(hits: seq<LineHit>)
    requires forall j, k | 0 <= j < k < |hits| :: hits[j].idx < hits[k].idx
    ensures |LinesHit(hits)| == |hits|
  {
    if hits != [] {
      var init, last := hits[..|hits| - 1], hits[|hits| - 1];
      CountLines(init);
      LinesHitHas(init, last.idx);
    }
  }

  lemma {:induction false} SubsetSize(x: set<nat>, y: set<nat>)
    requires x <= y
    ensures |x| <= |y|
  {
    if x != {} {
      var e :| e in x;
      SubsetSize(x - {e}, y - {e});
    }
  }

  // ---------------------------------------------------------------------------
  // Blocks of a newline-free pattern

  /** The lines plain spans are on. */
  ghost function LinesOn(index: LineIndex, spans: seq<Span>): set<nat>
    requires index.Valid()
  {
    if spans == [] then {} else LinesOn(index, spans[..|spans| - 1]) + {FirstLine(index, spans[|spans| - 1])}
  }

  lemma {:induction false} LinesOnHas(index: LineIndex, spans: seq<Span>, li: nat)
    requires index.Valid() && index.content != [] && Plain(index.content, spans)
    ensures li in LinesOn(index, spans) <==> PiecesOn(index, spans, li) != []
  {
    hide IsLineTable, Hir.NoNewline, Covers;
    if spans != [] {
      var init, last := spans[..|spans| - 1], spans[|spans| - 1];
      LinesOnHas(index, init, li);
      assert PlainSpan(index.content, last);
      OneLineCovers(index, last, li);
      LastPieces(index, spans, li);
    }
  }

  /** Each block of lines is one line. */
  lemma {:induction false} BlocksAreLines(index: LineIndex, spans: seq<Span>)
    requires index.Valid() && index.content != [] && Plain(index.content, spans)
    requires forall a, b | 0 <= a < b < |spans| :: spans[a].start <= spans[b].start
    ensures |LinesOn(index, spans)| == BlockCount(index, spans)
    ensures spans != [] ==> Reach(index, spans) == FirstLine(index, spans[|spans| - 1])
    ensures forall l | l in LinesOn(index, spans) :: l <= Reach(index, spans)
  {
    hide IsLineTable, Hir.NoNewline, FirstLine, LastLine;
    if spans != [] {
      var init, last := spans[..|spans| - 1], spans[|spans| - 1];
      BlocksAreLines(index, init);
      assert PlainSpan(index.content, last);
      PlainOneLine(index, last);
      if init != [] {
        FirstLineMonotone(index, init[|init| - 1], last);
      }
    }
  }

  lemma PlainOneLine(index: LineIndex, sp: Span)
    requires index.Valid() && index.content != [] && PlainSpan(index.content, sp)
    ensures LastLine(index, sp) == FirstLine(index, sp)
  {
    hide IsLineTable;
    if sp.start < sp.end {
      OneLine(index, sp, sp.end - 1);
    }
  }

  lemma FirstLineMonotone(index: LineIndex, a: Span, b: Span)
    requires index.Valid() && a.start <= b.start
    ensures FirstLine(index, a) <= FirstLine(index, b)
  {
    index.LineOfMonotone(a.start, b.start);
  }

  // ---------------------------------------------------------------------------
  // The two searches

  /** A line search hits the first matching lines. */
  lemma LineSearchFirst(fm: FileMatches, m: Matcher, opts: MatchOptions, expand: Expander)
    requires fm.index.Valid() && m.Valid() && FoundByLine(fm, m, opts, expand)
    requires !opts.invertMatch && !opts.stopOnNonmatch && opts.maxCount != Some(0)
    ensures FirstLines(fm.index, m, opts.maxCount, fm.hits)
  {
    hide IsLineTable, Prescan.PlainHits, Matcher.FindSpans, Matcher.IsMatch, Prescan.Select;
    var index := fm.index;
    Prescan.PlainHitsMeaning(index, m, opts);
    var stop: nat :| Prescan.CutOffAt(index, m, opts, stop, fm.hits);
    forall li: nat
      ensures Prescan.Select(index, m, opts, li).Some? <==> m.IsMatch(index.LineText(li))
    {
      SelectedMatches(index, m, opts, li);
    }
    forall li: nat | HitOn(fm.hits, li)
      ensures li < stop && MatchingLine(index, m, li)
    {
      var k :| 0 <= k < |fm.hits| && fm.hits[k].idx == li;
      assert Prescan.Select(index, m, opts, li).Some?;
    }
  }

  lemma SelectedMatches(index: LineIndex, m: Matcher, opts: MatchOptions, li: nat)
    requires index.Valid() && m.Valid() && !opts.invertMatch
    ensures Prescan.Select(index, m, opts, li).Some? <==> m.IsMatch(index.LineText(li))
  {
    hide IsLineTable, Matcher.FindSpans, Matcher.IsMatch;
    m.FirstOfAll(index.LineText(li));
  }

  /** So does a `-U` search, when no line lost a carriage return. */
  lemma MultilineFirst(fm: FileMatches, m: Matcher, opts: MatchOptions, expand: Expander,
                       kept: seq<Span>, members: seq<seq<Expansion>>)
    requires fm.index.Valid() && m.Valid() && !m.CanMatchNewline() && NoReturns(fm.index)
    requires FoundMultiline(fm, m, opts, expand, kept, members)
    ensures FirstLines(fm.index, m, opts.maxCount, fm.hits)
  {
    hide IsLineTable, PiecesOn, MatchesOnLines, Matcher.CanMatchNewline, Matcher.IsMatch, NoStrippedReturn, Plain,
         BlockCount, Reach, FirstLine, LinesOn, HitOn, LinesOf, RangesOn, Expansions, AreBlocks, Prescan.PlainHits;
    var index := fm.index;
    var all := MatchesOnLines(m, index.content);
    var spans := MultilineGroups(fm, m, opts, expand, kept, members);
    LimitedArePlain(index, m, opts, kept);
    LimitCutsAtBlock(index, m, opts, kept);
    HitsAreBlocks(fm, m, opts, expand, kept, members);
    forall li: nat
      ensures HitOn(fm.hits, li) <==> PiecesOn(index, kept, li) != []
      ensures MatchingLine(index, m, li) <==> PiecesOn(index, all, li) != []
      ensures PiecesOn(index, kept, li) != [] ==> PiecesOn(index, all, li) != []
      ensures PiecesOn(index, kept, li) == [] && PiecesOn(index, all, li) != [] ==>
                kept != all && forall l: nat | PiecesOn(index, kept, l) != [] :: l < li
    {
      KeptLinesHit(fm, m, opts, expand, kept, members, li);
      LimitKeepsLines(index, all, kept, li);
      MatchingHasPieces(index, m, li);
    }
  }

  /** A line matches when the whole buffer's matches leave a piece on it. */
  lemma MatchingHasPieces(index: LineIndex, m: Matcher, li: nat)
    requires index.Valid() && m.Valid() && !m.CanMatchNewline() && NoReturns(index)
    ensures MatchingLine(index, m, li) <==> PiecesOn(index, MatchesOnLines(m, index.content), li) != []
  {
    hide IsLineTable, PiecesOn, MatchesOnLines, Matcher.CanMatchNewline, Matcher.IsMatch, NoStrippedReturn;
    if MatchingLine(index, m, li) {
      LineMatchIsKept(index, m, li);
    }
    if PiecesOn(index, MatchesOnLines(m, index.content), li) != [] {
      MatchesAreOnLines(m, index.content);
      NoPieces(index);
      PiecesInTable(index, MatchesOnLines(m, index.content), li);
      TableNotEmpty(index);
      KeptLineMatches(index, m, li);
    }
  }

  /** The hits are as many as the blocks of the kept matches. */
  lemma HitsAreBlocks(fm: FileMatches, m: Matcher, opts: MatchOptions, expand: Expander,
                      kept: seq<Span>, members: seq<seq<Expansion>>)
    requires fm.index.Valid() && m.Valid() && !m.CanMatchNewline() && FoundMultiline(fm, m, opts, expand, kept, members)
    ensures |fm.hits| == BlockCount(fm.index, kept)
    ensures forall j, k | 0 <= j < k < |fm.hits| :: fm.hits[j].idx < fm.hits[k].idx
    ensures opts.maxCount.Some? ==> |fm.hits| <= opts.maxCount.value
  {
    hide IsLineTable, PiecesOn, MatchesOnLines, Matcher.CanMatchNewline, Plain, BlockCount, Reach, RangesOn, LinesOf,
         Expansions, AreBlocks, LinesOn, HitOn;
    var index := fm.index;
    var spans := MultilineGroups(fm, m, opts, expand, kept, members);
    LimitedArePlain(index, m, opts, kept);
    CountLines(fm.hits);
    if index.content == [] {
      NoPieces(index);
      NoBlocks(index);
      forall li
        ensures li !in LinesHit(fm.hits)
      {
        KeptLinesHit(fm, m, opts, expand, kept, members, li);
        LinesHitHas(fm.hits, li);
      }
      assert LinesHit(fm.hits) == {};
    } else {
      BlocksAreLines(index, kept);
      forall li
        ensures li in LinesHit(fm.hits) <==> li in LinesOn(index, kept)
      {
        KeptLinesHit(fm, m, opts, expand, kept, members, li);
        LinesHitHas(fm.hits, li);
        LinesOnHas(index, kept, li);
      }
      assert LinesHit(fm.hits) == LinesOn(index, kept);
    }
  }

  /** A line search hits exactly the matching lines, when nothing stops it early. */
  lemma LineSearchHits(fm: FileMatches, m: Matcher, opts: MatchOptions, expand: Expander, li: nat)
    requires fm.index.Valid() && m.Valid() && FoundByLine(fm, m, opts, expand)
    requires !opts.invertMatch && !opts.stopOnNonmatch && opts.maxCount == None
    ensures HitOn(fm.hits, li) <==> MatchingLine(fm.index, m, li)
  {
    hide MatchingLine, HitOn;
    LineSearchFirst(fm, m, opts, expand);
  }

  lemma NoneHit(li: nat)
    ensures !HitOn([], li)
  {
  }

  /** The modes agree. For a pattern that cannot match a newline, and with the same
      limit, `-U` and line search hit the same lines of a buffer whose lines lost no
      carriage return. Without a limit `-U` hits every line a line search hits, and
      no other line unless a carriage return was stripped from it. */
  lemma SameLines(line: FileMatches, multi: FileMatches, m: Matcher, expand: Expander, lineOpts: MatchOptions,
                  multiOpts: MatchOptions, kept: seq<Span>, members: seq<seq<Expansion>>, li: nat)
    requires line.index == multi.index && line.index.Valid() && m.Valid() && !m.CanMatchNewline()
    requires IsFound(line, m, lineOpts, expand, [], []) && IsFound(multi, m, multiOpts, expand, kept, members)
    requires !lineOpts.multiline && !lineOpts.invertMatch && !lineOpts.stopOnNonmatch
    requires multiOpts.multiline && !multiOpts.invertMatch && lineOpts.maxCount == multiOpts.maxCount
    ensures NoReturns(line.index) ==> (HitOn(multi.hits, li) <==> HitOn(line.hits, li))
    ensures lineOpts.maxCount == None && HitOn(line.hits, li) ==> HitOn(multi.hits, li)
    ensures lineOpts.maxCount == None && NoStrippedReturn(line.index, li) ==>
              (HitOn(multi.hits, li) <==> HitOn(line.hits, li))
  {
    hide IsLineTable, FoundByLine, HitOn, PiecesOn, NoStrippedReturn, MatchesOnLines, Matcher.FindSpans, NoReturns,
         FirstLines, Expansions, AreBlocks, LinesOf, BlockCount, RangesOn, IsGrouping, Matcher.CanMatchNewline;
    var index := line.index;
    if lineOpts.maxCount == Some(0) {
      NoneHit(li);
    } else if NoReturns(index) {
      LineSearchFirst(line, m, lineOpts, expand);
      MultilineFirst(multi, m, multiOpts, expand, kept, members);
      FirstLinesSame(index, m, lineOpts.maxCount, line.hits, multi.hits);
    }
    if lineOpts.maxCount == None {
      LineSearchHits(line, m, lineOpts, expand, li);
      KeptLinesHit(multi, m, multiOpts, expand, kept, members, li);
      if MatchingLine(index, m, li) {
        LineMatchIsKept(index, m, li);
      }
      if PiecesOn(index, kept, li) != [] && NoStrippedReturn(index, li) {
        KeptLineMatches(index, m, li);
      }
    }
  }
}
