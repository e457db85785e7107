/** Line search and `-U` search compared span by span, for engines that stand by
    their choice among the matches at a place. */
module SpanAgreement {
  import opened Bytes
  import opened FileMatching
  import opened LineIndexing
  import opened Matchers
  import opened Rewriting
  import opened SearchModes
  import opened Spans
  import Blocks
  import Hir
  import Pattern
  import Prescan
  import Regex
  import SpanOrder
  import Traversal

  /** `buf[a..b]` is a line of `buf` whose terminator starts with its newline. */
  ghost predicate IsBareLine(buf: bytes, a: nat, b: nat) {
    Hir.IsLineSlice(buf, a, b) && (b < |buf| ==> buf[b] == NL)
  }

  /** A pattern that cannot match a newline, compiled by a steady engine. */
  ghost predicate SteadyOnLines(re: Regex.Regex) {
    re.Valid() && re.Steady() && Hir.AnchorFree(re.Expr()) && !Hir.CanMatchNewline(re.Expr())
  }

  /** The spans that start on `a..b`, moved to it. */
  function PicksOn(spans: seq<Span>, a: nat, b: nat): seq<Span> {
    if spans == [] then []
    else PickOf(spans[0], a, b) + PicksOn(spans[1..], a, b)
  }

  function PickOf(sp: Span, a: nat, b: nat): seq<Span> {
    if a <= sp.start <= b then [Span(sp.start - a, Max(sp.end - a, 0))] else []
  }

  // ---------------------------------------------------------------------------
  // One search

  /** A match that starts on a bare line ends on it. */
  lemma StaysOnLine(re: Regex.Regex, buf: bytes, a: nat, b: nat, sp: Span)
    requires SteadyOnLines(re) && IsBareLine(buf, a, b) && re.Reports(buf, sp) && a <= sp.start <= b
    ensures sp.end <= b
  {
    hide Hir.Matches, Hir.CanMatchNewline, Hir.AnchorFree, Regex.Regex.Steady, Regex.Regex.Valid;
    Hir.NewlineAnalysisSound(re.words, re.Expr(), buf, sp.start, sp.end);
  }

  /** A match before a line ends before it. */
  lemma StaysBefore(re: Regex.Regex, buf: bytes, a: nat, b: nat, sp: Span)
    requires SteadyOnLines(re) && IsBareLine(buf, a, b) && re.Reports(buf, sp) && sp.start < a
    ensures sp.end < a
  {
    hide Hir.Matches, Hir.CanMatchNewline, Hir.AnchorFree, Regex.Regex.Steady, Regex.Regex.Valid;
    Hir.NewlineAnalysisSound(re.words, re.Expr(), buf, sp.start, sp.end);
  }

  /** Searching the line finds what searching the buffer finds, as long as that is
      on the line, and else nothing. */
  lemma SearchAgrees(re: Regex.Regex, buf: bytes, a: nat, b: nat, p: nat)
    requires SteadyOnLines(re) && IsBareLine(buf, a, b) && p <= b - a + 1
    ensures match re.search(buf, a + p)
            case None => re.search(buf[a..b], p) == None
            case Some(sp) =>
              if sp.start <= b then
                a <= sp.start <= sp.end <= b && re.search(buf[a..b], p) == Some(Span(sp.start - a, sp.end - a))
              else re.search(buf[a..b], p) == None
  {
    hide Hir.AnchorFree, Hir.CanMatchNewline, Hir.IsLineSlice, Regex.Regex.Reports;
    BareLine(buf, a, b);
    assert re.SearchOk(buf, a + p) && re.SearchOk(buf[a..b], p);
    match re.search(buf, a + p)
    case None =>
      LineFindsNoMore(re, buf, a, b, p, b + 1);
    case Some(sp) =>
      if sp.start <= b {
        StaysOnLine(re, buf, a, b, sp);
        ReportEnds(re, buf, sp);
        assert re.SteadyCut(buf, a, b, p);
      } else {
        LineFindsNoMore(re, buf, a, b, p, sp.start);
      }
  }

  lemma BareLine(buf: bytes, a: nat, b: nat)
    requires IsBareLine(buf, a, b)
    ensures Hir.IsLineSlice(buf, a, b) && a <= b <= |buf|
  {
  }

  lemma ReportEnds(re: Regex.Regex, hay: bytes, sp: Span)
    requires re.Reports(hay, sp)
    ensures sp.start <= sp.end <= |hay|
  {
  }

  /** Without a match in the buffer that starts before `limit`, which is past the
      line, the line has no match either. */
  lemma LineFindsNoMore(re: Regex.Regex, buf: bytes, a: nat, b: nat, p: nat, limit: nat)
    requires SteadyOnLines(re) && IsBareLine(buf, a, b) && p <= b - a + 1 && b < limit
    requires forall q: nat | a + p <= q < limit :: !re.MatchStartsAt(buf, q)
    ensures re.search(buf[a..b], p) == None
  {
    hide Hir.AnchorFree, Hir.CanMatchNewline, Hir.IsLineSlice, Regex.Regex.Reports, Regex.Regex.Steady;
    BareLine(buf, a, b);
    assert re.SearchOk(buf[a..b], p);
    forall q: nat | p <= q
      ensures !re.MatchStartsAt(buf[a..b], q)
    {
      re.StartIsLocal(buf, a, b, q);
      StartsWithin(re, buf[a..b], q);
    }
    FoundStarts(re, buf[a..b], p);
  }

  lemma StartsWithin(re: Regex.Regex, hay: bytes, p: nat)
    ensures re.MatchStartsAt(hay, p) ==> p <= |hay|
  {
  }

  lemma FoundStarts(re: Regex.Regex, hay: bytes, from: nat)
    requires re.SearchOk(hay, from)
    ensures match re.search(hay, from)
            case None => true
            case Some(sp) => from <= sp.start && re.MatchStartsAt(hay, sp.start)
  {
    hide Regex.Regex.Reports;
    match re.search(hay, from)
    case None =>
    case Some(sp) => assert re.Reports(hay, Span(sp.start, sp.end));
  }

  /** So does one step of the iteration. */
  lemma NextAgrees(re: Regex.Regex, buf: bytes, a: nat, b: nat, p: nat, last: bool)
    requires SteadyOnLines(re) && IsBareLine(buf, a, b) && p <= b - a
    ensures a <= b <= |buf|
    ensures var here := re.NextMatch(buf[a..b], p, if last then Some(p) else None);
            match re.NextMatch(buf, a + p, if last then Some(a + p) else None)
            case None => here == None
            case Some(sp) =>
              if sp.start <= b then a <= sp.start <= sp.end <= b && here == Some(Span(sp.start - a, sp.end - a))
              else here == None
  {
    hide SteadyOnLines, IsBareLine;
    BareLine(buf, a, b);
    SearchAgrees(re, buf, a, b, p);
    SearchAgrees(re, buf, a, b, p + 1);
  }

  // ---------------------------------------------------------------------------
  // The iteration

  /** From a place on the line on, the buffer's matches on the line are the line's. */
  lemma {:induction false} OnLine(re: Regex.Regex, buf: bytes, a: nat, b: nat, p: nat, last: bool)
    requires SteadyOnLines(re) && IsBareLine(buf, a, b) && p <= b - a
    ensures a <= b <= |buf| && re.Valid()
    ensures PicksOn(re.MatchesFrom(buf, a + p, if last then Some(a + p) else None), a, b)
         == re.MatchesFrom(buf[a..b], p, if last then Some(p) else None)
    decreases b - a - p, if last then 0 else 1
  {
    hide IsBareLine, Regex.Regex.NextMatch, Regex.Regex.MatchesFrom, SteadyOnLines, PicksOn;
    EngineIsValid(re);
    BareLine(buf, a, b);
    NextAgrees(re, buf, a, b, p, last);
    re.IterationStep(buf[a..b], p, if last then Some(p) else None);
    re.IterationStep(buf, a + p, if last then Some(a + p) else None);
    match re.NextMatch(buf, a + p, if last then Some(a + p) else None)
    case None =>
      NoPicks([], a, b);
    case Some(sp) =>
      PicksCons(sp, re.MatchesFrom(buf, sp.end, Some(sp.end)), a, b);
      if sp.start <= b {
        OnLine(re, buf, a, b, sp.end - a, true);
      } else {
        PastLine(re, buf, a, b, sp.end);
      }
  }

  lemma PicksCons(sp: Span, rest: seq<Span>, a: nat, b: nat)
    ensures PicksOn([sp] + rest, a, b) == PickOf(sp, a, b) + PicksOn(rest, a, b)
  {
    assert ([sp] + rest)[1..] == rest;
  }

  /** Past the line nothing is on it. */
  lemma PastLine(re: Regex.Regex, buf: bytes, a: nat, b: nat, from: nat)
    requires re.Valid() && b < from
    ensures PicksOn(re.MatchesFrom(buf, from, Some(from)), a, b) == []
  {
    hide Regex.Regex.Valid;
    re.IterationInOrder(buf, from, Some(from));
    NoPicks(re.MatchesFrom(buf, from, Some(from)), a, b);
  }

  lemma {:induction false} NoPicks(spans: seq<Span>, a: nat, b: nat)
    requires forall k | 0 <= k < |spans| :: b < spans[k].start
    ensures PicksOn(spans, a, b) == []
  {
    if spans != [] {
      NoPicks(spans[1..], a, b);
    }
  }

  /** Up to the line nothing is on it, and the iteration arrives there afresh. */
  lemma {:induction false} BeforeLine(re: Regex.Regex, buf: bytes, a: nat, b: nat, from: nat, last: bool)
    requires SteadyOnLines(re) && IsBareLine(buf, a, b) && from <= a && (last ==> from < a)
    ensures re.Valid()
    ensures PicksOn(re.MatchesFrom(buf, from, if last then Some(from) else None), a, b)
         == PicksOn(re.MatchesFrom(buf, a, None), a, b)
    decreases a - from, if last then 0 else 1
  {
    hide IsBareLine, Regex.Regex.NextMatch, Regex.Regex.MatchesFrom, SteadyOnLines, PicksOn, Regex.Regex.Reports;
    EngineIsValid(re);
    re.IterationStep(buf, from, if last then Some(from) else None);
    match re.NextMatch(buf, from, if last then Some(from) else None)
    case None =>
      ArrivesAfresh(re, buf, a, b, from, last);
    case Some(sp) =>
      if sp.start < a {
        StaysBefore(re, buf, a, b, sp);
        PicksCons(sp, re.MatchesFrom(buf, sp.end, Some(sp.end)), a, b);
        BeforeLine(re, buf, a, b, sp.end, true);
      } else {
        ArrivesAfresh(re, buf, a, b, from, last);
      }
  }

  /** With no match in between, a search from before the line finds what one from
      its start finds. */
  lemma ArrivesAfresh(re: Regex.Regex, buf: bytes, a: nat, b: nat, from: nat, last: bool)
    requires SteadyOnLines(re) && from <= a && (last ==> from < a)
    requires var next := re.NextMatch(buf, from, if last then Some(from) else None);
             next == None || a <= next.value.start
    ensures re.NextMatch(buf, from, if last then Some(from) else None) == re.NextMatch(buf, a, None)
    ensures re.MatchesFrom(buf, from, if last then Some(from) else None) == re.MatchesFrom(buf, a, None)
  {
    hide Hir.AnchorFree, Hir.CanMatchNewline, Regex.Regex.Reports;
    assert re.SearchOk(buf, from) && re.SearchOk(buf, from + 1) && re.SearchOk(buf, a);
    assert re.SteadyFrom(buf, from, a) && re.SteadyFrom(buf, from + 1, a);
    if re.search(buf, a).Some? {
      assert re.MatchStartsAt(buf, re.search(buf, a).value.start);
    }
  }

  /** The buffer's matches on a bare line are the line's matches. */
  lemma MatchesOnLine(re: Regex.Regex, buf: bytes, a: nat, b: nat)
    requires SteadyOnLines(re) && IsBareLine(buf, a, b)
    ensures a <= b <= |buf| && PicksOn(re.Matched(buf), a, b) == re.Matched(buf[a..b])
  {
    hide SteadyOnLines, IsBareLine, PicksOn;
    EngineIsValid(re);
    BareLine(buf, a, b);
    BeforeLine(re, buf, a, b, 0, false);
    OnLine(re, buf, a, b, 0, false);
  }

  lemma EngineIsValid(re: Regex.Regex)
    requires SteadyOnLines(re)
    ensures re.Valid()
  {
  }

  // ---------------------------------------------------------------------------
  // Pieces

  lemma {:induction false} PicksAppend(x: seq<Span>, y: seq<Span>, a: nat, b: nat)
    ensures PicksOn(x + y, a, b) == PicksOn(x, a, b) + PicksOn(y, a, b)
  {
    hide PickOf;
    if x == [] {
      assert x + y == y;
    } else {
      assert (x + y)[1..] == x[1..] + y && (x + y)[0] == x[0];
      PicksAppend(x[1..], y, a, b);
      Regroup(PickOf(x[0], a, b), PicksOn(x[1..], a, b), PicksOn(y, a, b));
    }
  }

  /** A span on text has its piece where it is picked, and as it is picked. */
  ghost predicate PieceIsPick(index: LineIndex, sp: Span, li: nat)
    requires index.Valid()
  {
    PieceIn(index, sp, li) == PickOf(sp, index.LineStart(li), index.LineEnd(li))
  }

  lemma {:induction false} PiecesArePicks(index: LineIndex, spans: seq<Span>, li: nat)
    requires index.Valid() && forall k | 0 <= k < |spans| :: PieceIsPick(index, spans[k], li)
    ensures PiecesOn(index, spans, li) == PicksOn(spans, index.LineStart(li), index.LineEnd(li))
  {
    hide IsLineTable, PieceIn, PickOf, PieceIsPick;
    var a, b := index.LineStart(li), index.LineEnd(li);
    if spans != [] {
      var init, last := spans[..|spans| - 1], [spans[|spans| - 1]];
      PiecesArePicks(index, init, li);
      LastPieces(index, spans, li);
      assert spans == init + last;
      PicksAppend(init, last, a, b);
      OnePick(last[0], a, b);
      PieceTakesPick(index, last[0], li);
    }
  }

  lemma PieceTakesPick(index: LineIndex, sp: Span, li: nat)
    requires index.Valid() && PieceIsPick(index, sp, li)
    ensures PieceIn(index, sp, li) == PickOf(sp, index.LineStart(li), index.LineEnd(li))
  {
  }

  lemma OnePick(sp: Span, a: nat, b: nat)
    ensures PicksOn([sp], a, b) == PickOf(sp, a, b)
  {
    hide PickOf;
    assert [sp][1..] == [];
  }

  /** A kept match without a newline has its piece on the line it starts on, whole
      when no carriage return was stripped there. */
  lemma KeptPieceIsPick(index: LineIndex, sp: Span, li: nat)
    requires index.Valid() && li < index.LineCount() && NoStrippedReturn(index, li)
    requires sp.start <= sp.end <= |index.content| && Hir.NoNewline(index.content, sp.start, sp.end)
    requires index.content[|index.content| - 1] == NL ==> sp.start < |index.content|
    ensures PieceIsPick(index, sp, li)
  {
    hide IsLineTable, NoStrippedReturn, Hir.NoNewline;
    TextBeforeEnd(index, li, index.LineStart(li));
    OneLineCovers(index, sp, li);
    if li == index.LineOf(sp.start) {
      EndsOnText(index, sp, li);
    } else if index.LineStart(li) <= sp.start <= index.LineEnd(li) {
      index.LineBorders(li, sp.start);
    }
  }

  lemma PlainPieces(index: LineIndex, spans: seq<Span>, li: nat)
    requires index.Valid() && li < index.LineCount() && NoStrippedReturn(index, li) && Plain(index.content, spans)
    ensures PiecesOn(index, spans, li) == PicksOn(spans, index.LineStart(li), index.LineEnd(li))
  {
    hide IsLineTable, NoStrippedReturn, PiecesOn, PicksOn, PieceIsPick, Hir.NoNewline;
    TextBeforeEnd(index, li, index.LineStart(li));
    forall k | 0 <= k < |spans|
      ensures PieceIsPick(index, spans[k], li)
    {
      assert PlainSpan(index.content, spans[k]);
      KeptPieceIsPick(index, spans[k], li);
    }
    PiecesArePicks(index, spans, li);
  }

  /** What a `-U` search puts on a bare line is what the line search finds there. */
  lemma PiecesAreMatches(index: LineIndex, m: Matcher, li: nat)
    requires index.Valid() && IsSteady(m) && li < index.LineCount() && NoStrippedReturn(index, li)
    ensures m.Valid() && PiecesOn(index, MatchesOnLines(m, index.content), li) == m.FindSpans(index.LineText(li))
  {
    hide IsLineTable, NoStrippedReturn, SteadyOnLines, IsBareLine, PiecesOn, PicksOn, Plain, Matcher.CanMatchNewline;
    SteadyMatcher(m);
    var buf, a, b := index.content, index.LineStart(li), index.LineEnd(li);
    LineIsBare(index, li);
    MatchesOnLine(m.re, buf, a, b);
    TextBeforeEnd(index, li, b);
    KeptArePlain(m, buf);
    PlainPieces(index, MatchesOnLines(m, buf), li);
    PhantomNotPicked(m.FindSpans(buf), MatchesOnLines(m, buf), |buf|, a, b);
  }

  lemma LineIsBare(index: LineIndex, li: nat)
    requires index.Valid() && li < index.LineCount() && NoStrippedReturn(index, li)
    ensures IsBareLine(index.content, index.LineStart(li), index.LineEnd(li))
  {
    hide IsLineTable;
    Prescan.LineIsSlice(index, li);
    index.LineShape(li);
    var t := index.content[index.LineEnd(li)..index.LineStart(li + 1)];
    assert t != [] ==> t[0] == index.content[index.LineEnd(li)];
    assert t != [CR] && t != [CR, NL];
    assert li + 1 == index.LineCount() ==> index.LineStart(li + 1) == |index.content|;
  }

  /** The match past a final newline, which is not kept, is on no line. */
  lemma PhantomNotPicked(all: seq<Span>, kept: seq<Span>, len: nat, a: nat, b: nat)
    requires kept != all ==> b < len && all != [] && all[|all| - 1] == Span(len, len) && kept == all[..|all| - 1]
    ensures PicksOn(kept, a, b) == PicksOn(all, a, b)
  {
    hide PicksOn;
    if kept != all {
      assert all == kept + [Span(len, len)];
      PicksAppend(kept, [Span(len, len)], a, b);
      OnePick(Span(len, len), a, b);
    }
  }

  // ---------------------------------------------------------------------------
  // The two results

  /** Where no carriage return was stripped, the ranges `-U` reports on a line are
      the matches of the line. */
  lemma RangesAreMatches(index: LineIndex, m: Matcher, li: nat)
    requires index.Valid() && IsSteady(m) && li < index.LineCount() && NoStrippedReturn(index, li)
    ensures m.Valid() && RangesOn(index, MatchesOnLines(m, index.content), li) == m.FindSpans(index.LineText(li))
  {
    hide IsLineTable, NoStrippedReturn, PiecesOn, MatchesOnLines, Matcher.FindSpans;
    PiecesAreMatches(index, m, li);
    RangesOfMatches(index, m, MatchesOnLines(m, index.content), li);
  }

  lemma InOrderIsApart(spans: seq<Span>, len: nat)
    requires SpansInOrder(spans, len)
    ensures SpanOrder.Apart(spans)
  {
  }

  /** A steady engine and a pattern the static analysis clears of newlines. */
  ghost predicate IsSteady(m: Matcher) {
    m.Valid() && m.Standard? && m.re.Steady() && !m.CanMatchNewline()
  }

  lemma SteadyMatcher(m: Matcher)
    requires IsSteady(m)
    ensures m.Valid() && m.Standard? && SteadyOnLines(m.re)
  {
    hide Hir.CanMatchNewline, Hir.AnchorFree, Pattern.Lower, Regex.Regex.Steady;
    Pattern.NewlineAnalysisIgnoresFlags(m.re.ast, m.re.flags);
    Hir.NewlineFreeIsAnchorFree(m.re.Expr());
  }

  /** The spans of a `-U` hit on a line that lost no carriage return are all matches
      of the line, whatever the limit and whether or not they are clipped. */
  lemma MultilineHitSpans(fm: FileMatches, m: Matcher, opts: MatchOptions, expand: Expander,
                          kept: seq<Span>, members: seq<seq<Expansion>>, k: nat)
    requires fm.index.Valid() && IsSteady(m) && FoundMultiline(fm, m, opts, expand, kept, members)
    requires k < |fm.hits| && fm.hits[k].idx < fm.index.LineCount() && NoStrippedReturn(fm.index, fm.hits[k].idx)
    ensures fm.hits[k].spans == m.FindSpans(fm.index.LineText(fm.hits[k].idx))
  {
    hide IsLineTable, PiecesOn, MatchesOnLines, Matcher.FindSpans, LinesOf, BlockCount, NoStrippedReturn, IsSteady,
         SteadyOnLines, Expansions, Blocks.AreBlocks, Plain, FirstLine, Reach, Matcher.CanMatchNewline, SpanOrder.Sort,
         SpanOrder.Merge;
    var index, li := fm.index, fm.hits[k].idx;
    SteadyMatcher(m);
    SteadyIsCleared(m);
    TextBeforeEnd(index, li, index.LineStart(li));
    var spans := MultilineGroups(fm, m, opts, expand, kept, members);
    LimitedArePlain(index, m, opts, kept);
    ClipKeepsPieces(index, kept, li);
    assert PiecesOn(index, kept, li) == PiecesOn(index, spans, li) != [];
    LimitCutsAtBlock(index, m, opts, kept);
    LimitKeepsLines(index, MatchesOnLines(m, index.content), kept, li);
    PiecesAreMatches(index, m, li);
    RangesOfMatches(index, m, spans, li);
  }

  /** When a line's pieces are the matches of its text, they need no merging. */
  lemma RangesOfMatches(index: LineIndex, m: Matcher, spans: seq<Span>, li: nat)
    requires index.Valid() && m.Valid() && PiecesOn(index, spans, li) == m.FindSpans(index.LineText(li))
    ensures RangesOn(index, spans, li) == m.FindSpans(index.LineText(li))
  {
    hide IsLineTable, PiecesOn, Matcher.FindSpans;
    m.SpansOrdered(index.LineText(li));
    InOrderIsApart(m.FindSpans(index.LineText(li)), |index.LineText(li)|);
    SpanOrder.ApartIsFixed(m.FindSpans(index.LineText(li)));
  }

  /** With the same limit the two searches find the same hits, span for span, in a
      buffer none of whose lines has lost a carriage return. */
  lemma SameHitsBothWays(line: FileMatches, multi: FileMatches, m: Matcher, expand: Expander,
                         lineOpts: MatchOptions, multiOpts: MatchOptions, kept: seq<Span>, members: seq<seq<Expansion>>)
    requires line.index == multi.index && Listed(line) && Listed(multi) && IsSteady(m) && NoReturns(line.index)
    requires IsFound(line, m, lineOpts, expand, [], []) && IsFound(multi, m, multiOpts, expand, kept, members)
    requires !lineOpts.multiline && !lineOpts.invertMatch && !lineOpts.stopOnNonmatch && lineOpts.allSpans
    requires multiOpts.multiline && !multiOpts.invertMatch && lineOpts.maxCount == multiOpts.maxCount
    ensures line.hits == multi.hits
  {
    hide IsLineTable, FoundByLine, FoundMultiline, BlocksListed, Matcher.FindSpans, NoStrippedReturn, IsSteady,
         SteadyOnLines, HitOn, Matcher.CanMatchNewline;
    SteadyMatcher(m);
    SteadyIsCleared(m);
    forall li: nat
      ensures HitOn(line.hits, li) <==> HitOn(multi.hits, li)
    {
      SameLines(line, multi, m, expand, lineOpts, multiOpts, kept, members, li);
    }
    forall j, k | 0 <= j < |line.hits| && 0 <= k < |multi.hits| && line.hits[j].idx == multi.hits[k].idx
      ensures line.hits[j].spans == multi.hits[k].spans
    {
      MultilineHitSpans(multi, m, multiOpts, expand, kept, members, k);
      LineHitSpans(line, m, lineOpts, expand, j);
    }
    SameHits(line.hits, multi.hits);
  }

  lemma SteadyIsCleared(m: Matcher)
    requires IsSteady(m)
    ensures !m.CanMatchNewline()
  {
  }

  lemma LineHitSpans(fm: FileMatches, m: Matcher, opts: MatchOptions, expand: Expander, k: nat)
    requires fm.index.Valid() && m.Valid() && FoundByLine(fm, m, opts, expand) && opts.allSpans
    requires !opts.invertMatch && opts.maxCount != Some(0) && k < |fm.hits|
    ensures fm.hits[k].spans == m.FindSpans(fm.index.LineText(fm.hits[k].idx))
  {
    hide IsLineTable, Prescan.PlainHits, Matcher.FindSpans, HitOn, Prescan.StopsAt;
    Prescan.PlainHitsMeaning(fm.index, m, opts);
    var stop: nat :| Prescan.CutOffAt(fm.index, m, opts, stop, fm.hits);
    assert Prescan.Select(fm.index, m, opts, fm.hits[k].idx) == Some(fm.hits[k].spans);
  }

  /** On a line that lost no carriage return `-U` reports, for every such matcher,
      the line's own matches; on any other line it does not for some. */
  lemma SpansAgreeExactly(index: LineIndex, li: nat)
    requires index.Valid() && li < index.LineCount()
    ensures NoStrippedReturn(index, li)
       <==> forall m: Matcher | IsSteady(m) ::
              RangesOn(index, MatchesOnLines(m, index.content), li) == m.FindSpans(index.LineText(li))
  {
    hide IsLineTable, RangesOn, PiecesOn, MatchesOnLines, Matcher.FindSpans, NoStrippedReturn, Exact, Matcher.IsMatch,
         Matcher.CanMatchNewline, Regex.Regex.Valid, Regex.Regex.Steady;
    if NoStrippedReturn(index, li) {
      forall m: Matcher | IsSteady(m)
        ensures RangesOn(index, MatchesOnLines(m, index.content), li) == m.FindSpans(index.LineText(li))
      {
        SteadyMatcher(m);
        RangesAreMatches(index, m, li);
      }
    } else {
      var m := TellingMatcher(index, li);
      ReturnTellsApart(index, li, m);
      m.FirstOfAll(index.LineText(li));
      RangesOfPieces(index, MatchesOnLines(m, index.content), li);
      assert IsSteady(m);
    }
  }

  lemma RangesOfPieces(index: LineIndex, spans: seq<Span>, li: nat)
    requires index.Valid() && PiecesOn(index, spans, li) != []
    ensures RangesOn(index, spans, li) != []
  {
    hide PiecesOn;
    var pieces := PiecesOn(index, spans, li);
    SpanOrder.SortSorts(pieces);
    assert pieces[0] in multiset(pieces);
    SpanOrder.MergeNotEmpty(SpanOrder.Sort(pieces));
  }

  // ---------------------------------------------------------------------------
  // Columns

  /** Under `-U -r` each match is reported at its own replacement, on lines that
      lost no carriage return, whatever the limit and whether or not it is clipped. */
  lemma MultilineColumns(fm: FileMatches, m: Matcher, opts: MatchOptions, expand: Expander,
                         kept: seq<Span>, members: seq<seq<Expansion>>, k: nat, j: nat)
    requires Listed(fm) && IsSteady(m) && FoundMultiline(fm, m, opts, expand, kept, members) && RewritesLines(opts)
    requires k < |fm.hits| && NoStrippedReturn(fm.index, fm.hits[k].idx) && j < |fm.hits[k].spans|
    ensures ShowsOwn(fm, m, opts, expand, k, j)
  {
    hide IsLineTable, BlocksListed, Matcher.FindSpans, NoStrippedReturn, Traversal.Shows, LinesOf, IsKept, IsGrouping,
         Blocks.AreBlocks, Expansions, IsSteady, Matcher.CanMatchNewline;
    SteadyMatcher(m);
    SteadyIsCleared(m);
    MultilineHitSpans(fm, m, opts, expand, kept, members, k);
    Traversal.ColumnPosition(fm, opts, m, expand, k, j);
  }

  /** `-r` without `-o`, and not beside the source line. */
  predicate RewritesLines(opts: MatchOptions) {
    !opts.onlyMatching && opts.replace.Some? && !opts.reportReplacements
  }

  /** The hit has one row, whose `j`-th column is its `j`-th span's and, with its
      shift, leads to that span's own replacement. */
  ghost predicate ShowsOwn(fm: FileMatches, m: Matcher, opts: MatchOptions, expand: Expander, k: nat, j: nat)
    requires Listed(fm) && k < |fm.hits| && j < |fm.hits[k].spans| && opts.replace.Some?
  {
    && m.Valid() && |Traversal.HitRows(fm, opts, m, expand, k)| == 1
    && var row, line := Traversal.HitRows(fm, opts, m, expand, k)[0], fm.index.LineText(fm.hits[k].idx);
       && row.Match? && j < |row.columns| && row.columns[j] == fm.hits[k].spans[j].start + 1
       && Traversal.Shows(row, j, expand(opts.replace.value, line, fm.hits[k].spans[j]))
  }

  /** Whatever a `-U -r` search of the buffer finds on line `li`, it reports each
      match there at its own replacement. */
  ghost predicate ColumnsHold(index: LineIndex, li: nat, m: Matcher)
    requires index.Valid() && m.Valid()
  {
    forall fm: FileMatches, opts: MatchOptions, expand: Expander,
           kept: seq<Span>, members: seq<seq<Expansion>>, k: nat, j: nat ::
      fm.index == index && Listed(fm) && RewritesLines(opts) && FoundMultiline(fm, m, opts, expand, kept, members)
      && k < |fm.hits| && fm.hits[k].idx == li && j < |fm.hits[k].spans| ==>
        ShowsOwn(fm, m, opts, expand, k, j)
  }

  lemma {:induction false} GroupingExists(index: LineIndex, spans: seq<Span>, bound: nat) returns (hits: seq<LineHit>)
    requires index.Valid()
    ensures GroupedBelow(index, spans, hits, bound)
  {
    hide PiecesOn, RangesOn;
    if bound == 0 {
      hits := [];
    } else {
      hits := GroupingExists(index, spans, bound - 1);
      GroupedSnoc(index, spans, hits, bound - 1);
      if PiecesOn(index, spans, bound - 1) != [] {
        hits := hits + [LineHit(bound - 1, RangesOn(index, spans, bound - 1))];
      }
    }
  }

  /** Any spans can be grouped. */
  lemma WholeGrouping(index: LineIndex, spans: seq<Span>) returns (hits: seq<LineHit>)
    requires index.Valid()
    ensures IsGrouping(index, spans, hits)
  {
    hide PiecesOn, RangesOn;
    hits := GroupingExists(index, spans, Max(1, index.LineCount()));
    forall li: nat | PiecesOn(index, spans, li) != []
      ensures HitOn(hits, li)
    {
      PiecesInTable(index, spans, li);
    }
  }

  /** What a `-U -r` search without a limit finds for a pattern that cannot match a
      newline. */
  lemma SomeSearch(index: LineIndex, m: Matcher, opts: MatchOptions, expand: Expander)
      returns (fm: FileMatches, kept: seq<Span>)
    requires index.Valid() && m.Valid() && !m.CanMatchNewline() && RewritesLines(opts) && opts.maxCount == None
    ensures fm.index == index && Listed(fm) && FoundMultiline(fm, m, opts, expand, kept, [])
    ensures kept == MatchesOnLines(m, index.content) && fm.replacements == []
  {
    hide IsLineTable, IsGrouping, MatchesOnLines, HitsListed, BlocksListed, SpanOk, Matcher.CanMatchNewline, BlockCount;
    kept := MatchesOnLines(m, index.content);
    KeptAreOk(index, m, opts, kept);
    ClippedAreOk(index, kept);
    var lines := WholeGrouping(index, kept);
    var spans := if opts.vimgrep then ClipSpansToStartLine(index, kept) else kept;
    var hits := WholeGrouping(index, spans);
    GroupingListed(index, spans, hits);
    NothingBuilt(index);
    fm := FileMatches(index, hits, |kept|, |lines|, [], []);
    assert LinesOf(index, kept, |lines|);
  }

  /** On every line that lost a carriage return some match is not replaced at all:
      its row is the line as it was, with nothing marked. */
  lemma ReturnLosesReplacement(index: LineIndex, li: nat, opts: MatchOptions, expand: Expander)
      returns (m: Matcher, fm: FileMatches, kept: seq<Span>, k: nat)
    requires index.Valid() && li < index.LineCount() && !NoStrippedReturn(index, li)
    requires RewritesLines(opts) && opts.maxCount == None
    ensures IsSteady(m) && fm.index == index && Listed(fm) && FoundMultiline(fm, m, opts, expand, kept, [])
    ensures k < |fm.hits| && fm.hits[k].idx == li && fm.hits[k].spans != []
    ensures |Traversal.HitRows(fm, opts, m, expand, k)| == 1
    ensures var row := Traversal.HitRows(fm, opts, m, expand, k)[0];
            row.Match? && row.content == index.LineText(li) && row.spans == []
  {
    hide IsLineTable, RangesOn, PiecesOn, MatchesOnLines, Matcher.FindSpans, NoStrippedReturn, Exact, Matcher.IsMatch,
         Matcher.CanMatchNewline, Regex.Regex.Valid, Regex.Regex.Steady, FoundMultiline, HitsListed, BlocksListed;
    m := TellingMatcher(index, li);
    ReturnTellsApart(index, li, m);
    m.FirstOfAll(index.LineText(li));
    fm, kept := SomeSearch(index, m, opts, expand);
    KeptIsAll(fm, m, opts, expand, kept);
    KeptLinesHit(fm, m, opts, expand, kept, [], li);
    k :| 0 <= k < |fm.hits| && fm.hits[k].idx == li;
    HitHasSpans(fm, m, opts, expand, kept, [], k);
    UnmatchedRow(fm, m, opts, expand, k);
  }

  lemma KeptIsAll(fm: FileMatches, m: Matcher, opts: MatchOptions, expand: Expander, kept: seq<Span>)
    requires fm.index.Valid() && m.Valid() && FoundMultiline(fm, m, opts, expand, kept, []) && opts.maxCount == None
    ensures kept == MatchesOnLines(m, fm.index.content)
  {
    hide IsLineTable, MatchesOnLines, IsGrouping, LinesOf, BlockCount, Expansions, Blocks.AreBlocks;
  }

  lemma HitHasSpans(fm: FileMatches, m: Matcher, opts: MatchOptions, expand: Expander,
                    kept: seq<Span>, members: seq<seq<Expansion>>, k: nat)
    requires fm.index.Valid() && m.Valid() && FoundMultiline(fm, m, opts, expand, kept, members) && k < |fm.hits|
    ensures fm.hits[k].spans != []
  {
    hide IsLineTable, PiecesOn, RangesOn, LinesOf, BlockCount, Expansions, Blocks.AreBlocks, IsKept;
    var spans := MultilineGroups(fm, m, opts, expand, kept, members);
    RangesOfPieces(fm.index, spans, fm.hits[k].idx);
  }

  /** A steady engine for the line's text with a carriage return after it. */
  lemma TellingMatcher(index: LineIndex, li: nat) returns (m: Matcher)
    requires index.Valid()
    ensures m.Valid() && m.Standard? && m.re.Steady()
    ensures m.re.ast == Exact(index.LineText(li) + [CR]) && !m.re.flags.ignoreCase
  {
    hide IsLineTable, Exact, Regex.Regex.Valid, Regex.Regex.Steady;
    var text, flags := index.LineText(li) + [CR], Pattern.Flags(true, false, false, true);
    var words: Hir.WordTable := (_: bytes) => false;
    ExactIsPlain(text, flags);
    Regex.EngineExists(Exact(text), flags, words);
    var re: Regex.Regex :|
      re.Valid() && re.Steady() && re.ast == Exact(text) && re.flags == flags && re.words == words;
    m := Standard(re);
  }

  /** The row of a hit on a line that has no match of its own. */
  lemma UnmatchedRow(fm: FileMatches, m: Matcher, opts: MatchOptions, expand: Expander, k: nat)
    requires Listed(fm) && m.Valid() && RewritesLines(opts) && |fm.replacements| <= k < |fm.hits|
    requires fm.hits[k].spans != [] && m.FindSpans(fm.index.LineText(fm.hits[k].idx)) == []
    ensures |Traversal.HitRows(fm, opts, m, expand, k)| == 1
    ensures var row := Traversal.HitRows(fm, opts, m, expand, k)[0];
            row.Match? && row.content == fm.index.LineText(fm.hits[k].idx) && row.spans == []
  {
    hide IsLineTable, HitsListed, BlocksListed, Matcher.FindSpans, Rewrite;
    var line := fm.index.LineText(fm.hits[k].idx);
    Traversal.LineExpansionsInOrder(m, expand, opts.replace.value, line);
    assert Expansions(m, expand, opts.replace.value, line) == [];
    RewriteNothing(line, 0, |line|);
    assert line[0..|line|] == line;
  }

  /** Exactly on the lines that lost no carriage return does `-U -r` report every
      match at its own replacement, for all steady engines and all patterns that
      cannot match a newline. */
  lemma ColumnsHoldExactly(index: LineIndex, li: nat)
    requires index.Valid() && li < index.LineCount()
    ensures NoStrippedReturn(index, li)
       <==> forall m: Matcher | IsSteady(m) :: ColumnsHold(index, li, m)
  {
    hide IsLineTable, FoundMultiline, NoStrippedReturn, HitsListed, BlocksListed, Traversal.HitRows, IsSteady;
    if NoStrippedReturn(index, li) {
      forall m: Matcher | IsSteady(m)
        ensures m.Valid() && ColumnsHold(index, li, m)
      {
        SteadyMatcher(m);
        ColumnsHoldHere(index, li, m);
      }
    } else {
      ColumnsFailHere(index, li);
    }
  }

  lemma ColumnsHoldHere(index: LineIndex, li: nat, m: Matcher)
    requires index.Valid() && IsSteady(m) && NoStrippedReturn(index, li)
    ensures m.Valid() && ColumnsHold(index, li, m)
  {
    hide IsLineTable, FoundMultiline, NoStrippedReturn, HitsListed, BlocksListed, ShowsOwn, IsSteady;
    SteadyMatcher(m);
    forall fm: FileMatches, opts: MatchOptions, expand: Expander,
           kept: seq<Span>, members: seq<seq<Expansion>>, k: nat, j: nat |
      fm.index == index && Listed(fm) && RewritesLines(opts) && FoundMultiline(fm, m, opts, expand, kept, members)
      && k < |fm.hits| && fm.hits[k].idx == li && j < |fm.hits[k].spans|
      ensures ShowsOwn(fm, m, opts, expand, k, j)
    {
      MultilineColumns(fm, m, opts, expand, kept, members, k, j);
    }
  }

  lemma ColumnsFailHere(index: LineIndex, li: nat)
    requires index.Valid() && li < index.LineCount() && !NoStrippedReturn(index, li)
    ensures exists m: Matcher :: IsSteady(m) && m.Valid() && !ColumnsHold(index, li, m)
  {
    hide IsLineTable, FoundMultiline, NoStrippedReturn, HitsListed, BlocksListed, Traversal.HitRows, IsSteady;
    var opts := MatchOptions(false, true, false, 0, 0, None, false, Some([]), false, false, true, false, false);
    var expand: Expander := (_: bytes, _: bytes, _: Span) => [];
    var m, fm, kept, k := ReturnLosesReplacement(index, li, opts, expand);
    SteadyMatcher(m);
    assert !ShowsOwn(fm, m, opts, expand, k, 0);
  }

  // ---------------------------------------------------------------------------
  // A carriage return that moves a column

  /** The pattern `ab\r|b` and the buffer `ab\r\n`. */
  const RETURN_OR_B: Pattern.Ast := Pattern.Or(Exact([97, 98, CR]), Exact([98]))
  const AB_LINE: bytes := [97, 98, CR, NL]

  lemma MatchesOfExample(re: Regex.Regex, hay: bytes, sp: Span)
    requires re.ast == RETURN_OR_B && !re.flags.ignoreCase
    ensures re.Reports(hay, sp) ==>
              sp.start <= sp.end <= |hay| && (hay[sp.start..sp.end] == [97, 98, CR] || hay[sp.start..sp.end] == [98])
    ensures sp.start < sp.end <= |hay| && (hay[sp.start..sp.end] == [97, 98, CR] || hay[sp.start..sp.end] == [98]) ==>
              re.Reports(hay, sp)
  {
    hide Exact, Hir.MatchesSeq, Hir.MatchesTimes;
    if sp.start <= sp.end <= |hay| {
      var x, y := Pattern.Lower(Exact([97, 98, CR]), re.flags), Pattern.Lower(Exact([98]), re.flags);
      assert re.Expr() == Hir.Alternation([x, y]);
      ExactMatches(re.words, [97, 98, CR], re.flags, hay, sp.start, sp.end);
      ExactMatches(re.words, [98], re.flags, hay, sp.start, sp.end);
      EitherMatches(re.words, x, y, hay, sp.start, sp.end);
    }
  }

  lemma EitherMatches(words: Hir.WordTable, x: Hir.Hir, y: Hir.Hir, hay: bytes, s: nat, e: nat)
    requires s <= e <= |hay|
    ensures Hir.Matches(words, Hir.Alternation([x, y]), hay, s, e)
       <==> Hir.Matches(words, x, hay, s, e) || Hir.Matches(words, y, hay, s, e)
  {
    var subs := [x, y];
    assert subs[0] == x && subs[1] == y;
  }

  /** The buffer has one match, the line's text with its carriage return. */
  lemma ExampleInBuffer(m: Matcher)
    requires m.Valid() && m.Standard? && m.re.ast == RETURN_OR_B && !m.re.flags.ignoreCase
    ensures m.FindSpans(AB_LINE) == [Span(0, 3)]
  {
    hide Regex.Regex.Reports, Regex.Regex.MatchesFrom;
    var re, spans := m.re, m.FindSpans(AB_LINE);
    re.IterationInOrder(AB_LINE, 0, None);
    forall sp | re.Reports(AB_LINE, sp)
      ensures sp == Span(0, 3) || sp == Span(1, 2)
    {
      MatchesOfExample(re, AB_LINE, sp);
      OnlyTheseSlices(sp);
    }
    MatchesOfExample(re, AB_LINE, Span(0, 3));
    assert AB_LINE[0..3] == [97, 98, CR];
    assert re.MatchStartsAt(AB_LINE, 0);
    re.MatchedEmpty(AB_LINE);
    assert re.SearchOk(AB_LINE, 0);
    assert forall k | 0 <= k < |spans| :: spans[k] in spans;
    assert spans[0] == Span(0, 3);
    OnlyOne(spans);
  }

  lemma OnlyTheseSlices(sp: Span)
    requires sp.start <= sp.end <= 4
    ensures AB_LINE[sp.start..sp.end] == [97, 98, CR] ==> sp == Span(0, 3)
    ensures AB_LINE[sp.start..sp.end] == [98] ==> sp == Span(1, 2)
  {
    var t := AB_LINE[sp.start..sp.end];
    assert |t| == sp.end - sp.start;
    assert t != [] ==> t[0] == AB_LINE[sp.start];
  }

  /** The line's text, which lacks the carriage return, has one match, its `b`. */
  lemma ExampleOnLine(m: Matcher)
    requires m.Valid() && m.Standard? && m.re.ast == RETURN_OR_B && !m.re.flags.ignoreCase
    ensures m.FindSpans([97, 98]) == [Span(1, 2)]
  {
    hide Regex.Regex.Reports, Regex.Regex.MatchesFrom;
    var line: bytes := [97, 98];
    var re, spans := m.re, m.FindSpans(line);
    re.IterationInOrder(line, 0, None);
    forall sp | re.Reports(line, sp)
      ensures sp == Span(1, 2)
    {
      MatchesOfExample(re, line, sp);
      var t := line[sp.start..sp.end];
      assert t != [] ==> t[0] == line[sp.start];
    }
    MatchesOfExample(re, line, Span(1, 2));
    assert line[1..2] == [98];
    assert re.MatchStartsAt(line, 1);
    re.MatchedEmpty(line);
    assert forall k | 0 <= k < |spans| :: spans[k] in spans;
    OnlyOne(spans);
  }

  /** Spans in order that all start before the first one ends are one at most. */
  lemma OnlyOne(spans: seq<Span>)
    requires forall j, k | 0 <= j < k < |spans| :: spans[j].end <= spans[k].start
    requires forall k | 0 <= k < |spans| :: spans[k].start < spans[0].end
    ensures |spans| <= 1
  {
    if spans != [] {
      FirstEndsBefore(spans, |spans| - 1);
    }
  }

  lemma FirstEndsBefore(spans: seq<Span>, n: nat)
    requires forall j, k | 0 <= j < k < |spans| :: spans[j].end <= spans[k].start
    requires n < |spans|
    ensures n == 0 || spans[0].end <= spans[n].start
  {
  }

  lemma FirstIsLess(s: seq<nat>, n: nat)
    requires StrictlyAscending(s) && n < |s|
    ensures n == 0 || s[0] < s[n]
  {
  }

  /** The table of the buffer. */
  lemma ExampleTable(index: LineIndex)
    requires index.Valid() && index.content == AB_LINE
    ensures index.LineCount() == 1 && index.LineStart(0) == 0 && index.LineEnd(0) == 2
    ensures index.LineText(0) == [97, 98] && index.LineOf(0) == 0 && index.LineOf(2) == 0
  {
    var starts := index.starts;
    assert IsLine(AB_LINE, starts, 0);
    var n := |starts| - 1;
    TableMembers(AB_LINE, starts, starts[n]);
    FirstIsLess(starts, n);
    assert AB_LINE[0..2] == [97, 98];
  }

  /** The match is one piece, clipped to the text. */
  lemma ExamplePieces(index: LineIndex, hits: seq<LineHit>)
    requires index.Valid() && index.content == AB_LINE && IsGrouping(index, [Span(0, 3)], hits)
    ensures hits == [LineHit(0, [Span(0, 2)])]
  {
    hide IsLineTable, PiecesOn, Covers, Piece, SpanOrder.Sort, SpanOrder.Merge;
    var spans := [Span(0, 3)];
    forall li: nat
      ensures PiecesOn(index, spans, li) == if li == 0 then [Span(0, 2)] else []
    {
      ExamplePiece(index, li);
    }
    SpanOrder.ApartIsFixed([Span(0, 2)]);
    assert HitOn(hits, 0);
    OneHit(hits, 0);
  }

  lemma OneHit(hits: seq<LineHit>, li: nat)
    requires forall j, k | 0 <= j < k < |hits| :: hits[j].idx < hits[k].idx
    requires HitOn(hits, li) && forall k | 0 <= k < |hits| :: hits[k].idx == li
    ensures |hits| == 1
  {
    FirstIsLess(seq(|hits|, k requires 0 <= k < |hits| => hits[k].idx), |hits| - 1);
  }

  lemma ExamplePiece(index: LineIndex, li: nat)
    requires index.Valid() && index.content == AB_LINE
    ensures PiecesOn(index, [Span(0, 3)], li) == if li == 0 then [Span(0, 2)] else []
  {
    hide IsLineTable;
    ExampleTable(index);
    LastPieces(index, [Span(0, 3)], li);
    NoPieces(index);
    assert [Span(0, 3)][..0] == [];
  }

  /** The `-U` search of the buffer has one hit, on all of the line's text. */
  lemma ExampleHits(fm: FileMatches, m: Matcher, opts: MatchOptions, expand: Expander,
                    kept: seq<Span>, members: seq<seq<Expansion>>)
    requires Listed(fm) && fm.index.content == AB_LINE && m.Valid()
    requires m.Standard? && m.re.ast == RETURN_OR_B && !m.re.flags.ignoreCase
    requires FoundMultiline(fm, m, opts, expand, kept, members)
    requires opts.maxCount == None && !opts.vimgrep && !opts.reportReplacements
    ensures fm.hits == [LineHit(0, [Span(0, 2)])] && fm.blocks == [] && fm.replacements == []
  {
    hide IsLineTable, HitsListed, BlocksListed, Matcher.FindSpans, IsGrouping, Exact, Blocks.AreBlocks, LinesOf,
         BlockCount, Expansions, Matcher.CanMatchNewline;
    ExampleInBuffer(m);
    ExampleIsCleared(m);
    assert kept == [Span(0, 3)];
    ExamplePieces(fm.index, fm.hits);
  }

  /** With `-U -r` a stripped carriage return moves the column: the match of all of
      the text, at column 1, is reported at column 2, where the replacement of the
      `b` stands that the line alone has as its match. */
  lemma ReturnMovesColumn(fm: FileMatches, m: Matcher, opts: MatchOptions, expand: Expander)
    requires Listed(fm) && fm.index.content == AB_LINE && m.Valid()
    requires m.Standard? && m.re.ast == RETURN_OR_B && !m.re.flags.ignoreCase
    requires fm.hits == [LineHit(0, [Span(0, 2)])] && fm.replacements == []
    requires !opts.onlyMatching && opts.replace.Some?
    ensures |Traversal.HitRows(fm, opts, m, expand, 0)| == 1
    ensures var row := Traversal.HitRows(fm, opts, m, expand, 0)[0];
            && Traversal.Shows(row, 0, expand(opts.replace.value, [97, 98], Span(1, 2)))
            && row.columns[0] == 1 && row.columns[0] + row.columnShifts[0] == 2
  {
    hide IsLineTable, HitsListed, BlocksListed, Matcher.FindSpans, Exact, Expansions, Rewrite, Landing;
    ExampleTable(fm.index);
    ExampleOnLine(m);
    Traversal.ColumnPosition(fm, opts, m, expand, 0, 0);
    ExampleShift(m, opts, expand);
  }

  lemma ExampleIsCleared(m: Matcher)
    requires m.Standard? && m.re.ast == RETURN_OR_B
    ensures !m.CanMatchNewline()
  {
    hide Exact, Hir.CanMatchNewline;
    var f := Pattern.AnalysisFlags(m.re.flags);
    ExactIsPlain([97, 98, CR], f);
    ExactIsPlain([98], f);
    Pattern.PairNewline(Pattern.Lower(Exact([97, 98, CR]), f), Pattern.Lower(Exact([98]), f));
  }

  /** The one replacement of the line lands behind its `a`. */
  lemma ExampleShift(m: Matcher, opts: MatchOptions, expand: Expander)
    requires m.Valid() && m.FindSpans([97, 98]) == [Span(1, 2)] && opts.replace.Some?
    ensures var reps := Expansions(m, expand, opts.replace.value, [97, 98]);
            InOrder(reps, 0, 2) && |reps| == 1 && Landing([97, 98], 0, reps, 0).start == 1
  {
    hide Matcher.FindSpans, Landing;
    var reps := Expansions(m, expand, opts.replace.value, [97, 98]);
    LandingIsShifted([97, 98], 0, reps, 0);
    assert reps[..0] == [];
  }
}
