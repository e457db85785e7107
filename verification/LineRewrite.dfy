/** What `-U -r --passthru` prints in all when it goes by lines: each line rewritten
    by itself comes to the buffer rewritten at once. */
module LineRewrites {
  import opened Bytes
  import opened FileMatching
  import opened LineIndexing
  import opened LineOutput
  import opened Matchers
  import opened Rewriting
  import opened SearchModes
  import opened SpanAgreement
  import opened Spans
  import opened Traversal
  import Blocks
  import EmitBlocks
  import Hir
  import WholeOutput

  /** The expansion of a match depends on the matched text alone. */
  ghost predicate TextOnly(expand: Expander) {
    forall template: bytes, x: bytes, y: bytes, a: Span, b: Span ::
      a.start <= a.end <= |x| && b.start <= b.end <= |y| && x[a.start..a.end] == y[b.start..b.end] ==>
        expand(template, x, a) == expand(template, y, b)
  }

  /** A `-U -r` search with such an expander of a buffer whose lines have lost no
      carriage return, for a pattern that cannot match a newline. */
  ghost predicate RewritesEachLine(fm: FileMatches, m: Matcher, opts: MatchOptions, expand: Expander,
                                   kept: seq<Span>, members: seq<seq<Expansion>>) {
    && Listed(fm) && IsSteady(m) && RewritesLines(opts) && FoundMultiline(fm, m, opts, expand, kept, members)
    && NoReturns(fm.index) && TextOnly(expand)
  }

  // ---------------------------------------------------------------------------
  // Rewriting a slice

  function Moved(rep: Expansion, a: nat): Expansion {
    Expansion(Span(rep.at.start + a, rep.at.end + a), rep.text)
  }

  function AllMoved(reps: seq<Expansion>, a: nat): seq<Expansion> {
    seq(|reps|, k requires 0 <= k < |reps| => Moved(reps[k], a))
  }

  /** Rewriting a slice is rewriting that stretch of the buffer. */
  lemma {:induction false} RewriteMoves(content: bytes, a: nat, b: nat, reps: seq<Expansion>, to: nat)
    requires a <= b <= |content| && InOrder(reps, 0, to) && to <= b - a
    ensures InOrder(AllMoved(reps, a), a, a + to)
    ensures Rewrite(content[a..b], 0, reps, to) == Rewrite(content, a, AllMoved(reps, a), a + to)
  {
    hide Rewrite, InOrder;
    var line := content[a..b];
    if reps == [] {
      RewriteNothing(line, 0, to);
      RewriteNothing(content, a, a + to);
      SliceInSlice(content, a, b, 0, to);
      assert AllMoved(reps, a) == [];
    } else {
      var init, rep := reps[..|reps| - 1], reps[|reps| - 1];
      assert reps == init + [rep] && AllMoved(reps, a) == AllMoved(init, a) + [Moved(rep, a)];
      InOrderSnoc(init, rep, 0, to);
      RewriteMoves(content, a, b, init, rep.at.start);
      RewriteSnoc(line, 0, init, rep, to);
      RewriteSnoc(content, a, AllMoved(init, a), Moved(rep, a), a + to);
      SliceInSlice(content, a, b, rep.at.end, to);
    }
  }

  // ---------------------------------------------------------------------------
  // The matches of one line

  /** Just the first `c` spans start before line `n`. */
  ghost predicate CutAt(index: LineIndex, spans: seq<Span>, c: nat, n: nat)
    requires index.Valid()
  {
    && c <= |spans|
    && (forall k | 0 <= k < c :: index.LineOf(spans[k].start) < n)
    && (forall k | c <= k < |spans| :: n <= index.LineOf(spans[k].start))
  }

  lemma {:induction false} NextCut(index: LineIndex, spans: seq<Span>, c: nat, n: nat) returns (d: nat)
    requires index.Valid() && SpansInOrder(spans, |index.content|)
    requires c <= |spans| && forall k | 0 <= k < c :: index.LineOf(spans[k].start) < n
    ensures c <= d <= |spans| && CutAt(index, spans, d, n)
    decreases |spans| - c
  {
    hide IsLineTable, LineIndex.LineOf;
    d := c;
    if c < |spans| && index.LineOf(spans[c].start) < n {
      d := NextCut(index, spans, c + 1, n);
    } else {
      forall k | c <= k < |spans|
        ensures n <= index.LineOf(spans[k].start)
      {
        index.LineOfMonotone(spans[c].start, spans[k].start);
      }
    }
  }

  lemma {:induction false} NoPicksBefore(spans: seq<Span>, a: nat, b: nat)
    requires forall k | 0 <= k < |spans| :: spans[k].start < a
    ensures PicksOn(spans, a, b) == []
  {
    if spans != [] {
      NoPicksBefore(spans[1..], a, b);
    }
  }

  lemma {:induction false} AllPicked(spans: seq<Span>, a: nat, b: nat)
    requires forall k | 0 <= k < |spans| :: a <= spans[k].start <= spans[k].end <= b
    ensures |PicksOn(spans, a, b)| == |spans|
    ensures forall k | 0 <= k < |spans| :: PicksOn(spans, a, b)[k] == Span(spans[k].start - a, spans[k].end - a)
  {
    if spans != [] {
      AllPicked(spans[1..], a, b);
    }
  }

  /** Only the spans between the two cuts are picked. */
  lemma PicksBetween(spans: seq<Span>, c: nat, d: nat, a: nat, b: nat)
    requires c <= d <= |spans|
    requires forall k | 0 <= k < c :: spans[k].start < a
    requires forall k | d <= k < |spans| :: b < spans[k].start
    ensures PicksOn(spans, a, b) == PicksOn(spans[c..d], a, b)
  {
    hide PicksOn;
    assert spans == spans[..c] + (spans[c..d] + spans[d..]);
    PicksAppend(spans[..c], spans[c..d] + spans[d..], a, b);
    PicksAppend(spans[c..d], spans[d..], a, b);
    NoPicksBefore(spans[..c], a, b);
    NoPicks(spans[d..], a, b);
  }

  /** The kept matches between two cuts lie on the line between them, and are what
      the search puts there. */
  lemma LinePieces(index: LineIndex, spans: seq<Span>, c: nat, d: nat, n: nat)
    requires index.Valid() && n < index.LineCount() && NoStrippedReturn(index, n) && Plain(index.content, spans)
    requires c <= d && CutAt(index, spans, c, n) && CutAt(index, spans, d, n + 1)
    ensures forall k | c <= k < d :: index.LineStart(n) <= spans[k].start <= spans[k].end <= index.LineEnd(n)
    ensures PiecesOn(index, spans, n) == PicksOn(spans[c..d], index.LineStart(n), index.LineEnd(n))
  {
    hide IsLineTable, PiecesOn, PicksOn, NoStrippedReturn, Hir.NoNewline, LineIndex.LineOf, LineIndex.LineStart,
         LineIndex.LineEnd;
    var a, b := index.LineStart(n), index.LineEnd(n);
    TextBeforeEnd(index, n, a);
    PlainPieces(index, spans, n);
    forall k | 0 <= k < |spans|
      ensures k < c ==> spans[k].start < a
      ensures c <= k < d ==> a <= spans[k].start <= spans[k].end <= b
      ensures d <= k ==> b < spans[k].start
    {
      assert PlainSpan(index.content, spans[k]);
      StartsOnItsLine(index, spans[k], n);
    }
    PicksBetween(spans, c, d, a, b);
  }

  lemma StartsOnItsLine(index: LineIndex, sp: Span, n: nat)
    requires index.Valid() && n < index.LineCount() && NoStrippedReturn(index, n) && index.content != []
    requires PlainSpan(index.content, sp)
    ensures index.LineOf(sp.start) < n ==> sp.start < index.LineStart(n)
    ensures index.LineOf(sp.start) == n ==> index.LineStart(n) <= sp.start <= sp.end <= index.LineEnd(n)
    ensures n < index.LineOf(sp.start) ==> index.LineEnd(n) < sp.start
  {
    hide IsLineTable, NoStrippedReturn, Hir.NoNewline;
    var a, b := index.LineStart(n), index.LineEnd(n);
    if index.LineOf(sp.start) == n {
      EndsOnText(index, sp, n);
    } else {
      index.LineBorders(n, a);
      index.LineBorders(n, b);
      if a <= sp.start {
        index.LineOfMonotone(a, sp.start);
      }
      if sp.start <= b {
        index.LineOfMonotone(sp.start, b);
      }
    }
  }

  // ---------------------------------------------------------------------------
  // What one line shows

  /** The kept matches between two cuts are the matches of the line between them, when
      it is hit, and none otherwise. */
  lemma LineHasPart(fm: FileMatches, m: Matcher, opts: MatchOptions, expand: Expander,
                    kept: seq<Span>, members: seq<seq<Expansion>>, c: nat, d: nat, n: nat)
    requires RewritesEachLine(fm, m, opts, expand, kept, members) && m.Valid() && n < fm.index.LineCount()
    requires c <= d <= |kept| && CutAt(fm.index, kept, c, n) && CutAt(fm.index, kept, d, n + 1)
    ensures forall k | 0 <= k < d - c ::
              fm.index.LineStart(n) <= kept[c..d][k].start <= kept[c..d][k].end <= fm.index.LineEnd(n)
    ensures !HitOn(fm.hits, n) ==> c == d
    ensures HitOn(fm.hits, n) ==> AreMoved(m.FindSpans(fm.index.LineText(n)), fm.index.LineStart(n), kept[c..d])
  {
    hide IsLineTable, HitsListed, BlocksListed, FoundMultiline, PiecesOn, PicksOn, CutAt, NoStrippedReturn, Plain,
         Matcher.FindSpans, Matcher.CanMatchNewline, TextOnly, IsSteady, HitOn;
    KeptOnLine(fm, m, opts, expand, kept, members, n);
    LinePieces(fm.index, kept, c, d, n);
    AllPicked(kept[c..d], fm.index.LineStart(n), fm.index.LineEnd(n));
    KeptLinesHit(fm, m, opts, expand, kept, members, n);
  }

  /** `spans` are the `own` spans moved on by `a`. */
  ghost predicate AreMoved(own: seq<Span>, a: nat, spans: seq<Span>) {
    |own| == |spans| && forall k | 0 <= k < |spans| :: spans[k] == Span(own[k].start + a, own[k].end + a)
  }

  /** A line shows its stretch of the rewritten buffer. */
  lemma LineShowsPart(fm: FileMatches, m: Matcher, opts: MatchOptions, expand: Expander,
                      kept: seq<Span>, members: seq<seq<Expansion>>, reps: seq<Expansion>, c: nat, d: nat, n: nat)
    requires RewritesEachLine(fm, m, opts, expand, kept, members) && m.Valid() && n < fm.index.LineCount()
    requires AreExpansions(expand, opts.replace.value, fm.index.content, kept, reps)
    requires c <= d <= |kept| && CutAt(fm.index, kept, c, n) && CutAt(fm.index, kept, d, n + 1)
    ensures InOrder(reps[c..d], fm.index.LineStart(n), fm.index.LineEnd(n))
    ensures ShownText(fm, opts, m, expand, n)
         == Rewrite(fm.index.content, fm.index.LineStart(n), reps[c..d], fm.index.LineEnd(n))
  {
    hide IsLineTable, HitsListed, BlocksListed, FoundMultiline, CutAt, NoReturns, Matcher.FindSpans, Matcher.Valid,
         TextOnly, InOrder, Rewrite, Expansions, LandingsOf, IsSteady, LineIndex.LineStart, LineIndex.LineEnd, AreMoved;
    var index, a, b := fm.index, fm.index.LineStart(n), fm.index.LineEnd(n);
    LineHasPart(fm, m, opts, expand, kept, members, c, d, n);
    match HitAt(fm.hits, n, 0)
    case None =>
      assert reps[c..d] == [];
      RewriteNothing(index.content, a, b);
    case Some(k) =>
      HitIsRewritten(fm, m, opts, expand, kept, members, k);
      ExpansionsMove(m, expand, opts.replace.value, index.content, a, b, kept[c..d], reps[c..d]);
      LineExpansionsInOrder(m, expand, opts.replace.value, index.LineText(n));
      RewriteMoves(index.content, a, b, Expansions(m, expand, opts.replace.value, index.LineText(n)), b - a);
  }

  lemma HitIsRewritten(fm: FileMatches, m: Matcher, opts: MatchOptions, expand: Expander,
                       kept: seq<Span>, members: seq<seq<Expansion>>, k: nat)
    requires fm.index.Valid() && m.Valid() && RewritesLines(opts) && k < |fm.hits|
    requires FoundMultiline(fm, m, opts, expand, kept, members)
    ensures IsRewritten(fm, opts, k)
  {
    hide IsKept, LinesOf, IsGrouping, Blocks.AreBlocks, Expansions, Matcher.CanMatchNewline;
    HitHasSpans(fm, m, opts, expand, kept, members, k);
  }

  /** `reps` are the expansions of `spans` in `hay`. */
  ghost predicate AreExpansions(expand: Expander, template: bytes, hay: bytes, spans: seq<Span>, reps: seq<Expansion>) {
    |reps| == |spans| && forall k | 0 <= k < |reps| :: reps[k] == Expansion(spans[k], expand(template, hay, spans[k]))
  }

  /** On a line with a kept match, the kept matches are all matches of the line. */
  lemma KeptOnLine(fm: FileMatches, m: Matcher, opts: MatchOptions, expand: Expander,
                   kept: seq<Span>, members: seq<seq<Expansion>>, n: nat)
    requires fm.index.Valid() && IsSteady(m) && m.Valid() && FoundMultiline(fm, m, opts, expand, kept, members)
    requires n < fm.index.LineCount() && NoStrippedReturn(fm.index, n)
    ensures !m.CanMatchNewline() && Plain(fm.index.content, kept)
    ensures PiecesOn(fm.index, kept, n) == [] || PiecesOn(fm.index, kept, n) == m.FindSpans(fm.index.LineText(n))
  {
    hide IsLineTable, PiecesOn, MatchesOnLines, Matcher.FindSpans, LinesOf, BlockCount, NoStrippedReturn, IsSteady,
         Expansions, Blocks.AreBlocks, Plain, FirstLine, Reach, Matcher.CanMatchNewline;
    SteadyIsCleared(m);
    LimitedArePlain(fm.index, m, opts, kept);
    LimitCutsAtBlock(fm.index, m, opts, kept);
    LimitKeepsLines(fm.index, MatchesOnLines(m, fm.index.content), kept, n);
    PiecesAreMatches(fm.index, m, n);
  }

  lemma SameOnLine(expand: Expander, template: bytes, content: bytes, a: nat, b: nat, sp: Span)
    requires TextOnly(expand) && a <= b <= |content| && sp.start <= sp.end <= b - a
    ensures expand(template, content[a..b], sp) == expand(template, content, Span(sp.start + a, sp.end + a))
  {
    hide TextOnly;
    SliceInSlice(content, a, b, sp.start, sp.end);
    SameText(expand, template, content[a..b], content, sp, Span(sp.start + a, sp.end + a));
  }

  lemma SameText(expand: Expander, template: bytes, x: bytes, y: bytes, a: Span, b: Span)
    requires TextOnly(expand) && a.start <= a.end <= |x| && b.start <= b.end <= |y|
    requires x[a.start..a.end] == y[b.start..b.end]
    ensures expand(template, x, a) == expand(template, y, b)
  {
  }

  /** The expansions of a line's own matches, moved to the line, are those of the
      buffer's. */
  lemma ExpansionsMove(m: Matcher, expand: Expander, template: bytes, content: bytes, a: nat, b: nat,
                       spans: seq<Span>, reps: seq<Expansion>)
    requires m.Valid() && TextOnly(expand) && a <= b <= |content|
    requires AreExpansions(expand, template, content, spans, reps)
    requires forall k | 0 <= k < |spans| :: a <= spans[k].start <= spans[k].end <= b
    requires AreMoved(m.FindSpans(content[a..b]), a, spans)
    ensures AllMoved(Expansions(m, expand, template, content[a..b]), a) == reps
  {
    hide Matcher.FindSpans, TextOnly, Matcher.Valid;
    var own := Expansions(m, expand, template, content[a..b]);
    forall k | 0 <= k < |spans|
      ensures Moved(own[k], a) == reps[k]
    {
      SameOnLine(expand, template, content, a, b, own[k].at);
    }
  }

  // ---------------------------------------------------------------------------
  // The whole buffer

  /** The first `n` lines as shown are the rewritten buffer up to line `n`. */
  lemma {:induction false} LinesAreRewrite(fm: FileMatches, m: Matcher, opts: MatchOptions, expand: Expander,
                                           kept: seq<Span>, members: seq<seq<Expansion>>, reps: seq<Expansion>,
                                           texts: nat -> bytes, n: nat) returns (c: nat)
    requires RewritesEachLine(fm, m, opts, expand, kept, members) && m.Valid() && n <= fm.index.LineCount()
    requires AreExpansions(expand, opts.replace.value, fm.index.content, kept, reps)
    requires SpansInOrder(kept, |fm.index.content|)
    requires forall li: nat :: texts(li) == ShownLine(fm, opts, m, expand, li)
    ensures c <= |kept| == |reps| && CutAt(fm.index, kept, c, n) && InOrder(reps[..c], 0, fm.index.LineStart(n))
    ensures Texts(texts, n) == Rewrite(fm.index.content, 0, reps[..c], fm.index.LineStart(n))
  {
    hide IsLineTable, HitsListed, BlocksListed, FoundMultiline, NoStrippedReturn, ShownText, TextOnly, InOrder, Rewrite,
         IsSteady, LineIndex.LineOf, LineIndex.LineStart, LineIndex.LineEnd, Matcher.Valid;
    var index, content := fm.index, fm.index.content;
    if n == 0 {
      c := 0;
      index.FirstStart();
      RewriteNothing(content, 0, 0);
    } else {
      var before := LinesAreRewrite(fm, m, opts, expand, kept, members, reps, texts, n - 1);
      c := NextCut(index, kept, before, n);
      var a, b, next := index.LineStart(n - 1), index.LineEnd(n - 1), index.LineStart(n);
      LineShowsPart(fm, m, opts, expand, kept, members, reps, before, c, n - 1);
      RewriteExtends(content, a, reps[before..c], b, next);
      RewriteSplits(content, 0, reps[..before], a, reps[before..c], next);
      assert reps[..before] + reps[before..c] == reps[..c];
    }
  }

  lemma AllCut(index: LineIndex, spans: seq<Span>, c: nat)
    requires index.Valid() && CutAt(index, spans, c, index.LineCount()) && (index.content == [] ==> spans == [])
    ensures c == |spans| && index.LineStart(index.LineCount()) == |index.content|
  {
    hide IsLineTable;
    if c < |spans| {
      index.LineOfInverts(spans[c].start, index.LineOf(spans[c].start));
    }
  }

  /** Going by lines, `-U -r --passthru` prints the whole buffer with every kept match
      replaced, as it does going by blocks. */
  lemma PassthruPrintsLineRewrite(fm: FileMatches, m: Matcher, opts: MatchOptions, expand: Expander, kept: seq<Span>,
                                  members: seq<seq<Expansion>>, events: seq<EmitBlocks.Emit>)
    requires RewritesEachLine(fm, m, opts, expand, kept, members) && opts.passthru
    requires m.Valid() && IsLineOutput(fm, opts, m, expand, events)
    ensures var reps := Expansions(m, expand, opts.replace.value, fm.index.content);
            && |kept| <= |reps| && InOrder(reps[..|kept|], 0, |fm.index.content|)
            && WholeOutput.Prints(events, Rewrite(fm.index.content, 0, reps[..|kept|], |fm.index.content|))
  {
    hide IsLineTable, HitsListed, BlocksListed, FoundMultiline, NoStrippedReturn, ShownLine, TextOnly, InOrder, Rewrite,
         IsSteady, IsLineOutput, Texts, CutAt, Matcher.FindSpans, MatchesOnLines, Matcher.CanMatchNewline,
         WholeOutput.Prints;
    var content := fm.index.content;
    var reps := Expansions(m, expand, opts.replace.value, content);
    KeptInOrder(fm, m, opts, expand, kept, members);
    PassthruPrintsLines(fm, m, opts, expand, events);
    var c := LinesAreRewrite(fm, m, opts, expand, kept, members, reps[..|kept|],
        (li: nat) => ShownLine(fm, opts, m, expand, li), fm.index.LineCount());
    AllCut(fm.index, kept, c);
    assert reps[..|kept|][..c] == reps[..|kept|];
  }

  lemma KeptInOrder(fm: FileMatches, m: Matcher, opts: MatchOptions, expand: Expander,
                    kept: seq<Span>, members: seq<seq<Expansion>>)
    requires fm.index.Valid() && m.Valid() && FoundMultiline(fm, m, opts, expand, kept, members)
    ensures kept <= m.FindSpans(fm.index.content) && SpansInOrder(kept, |fm.index.content|)
    ensures fm.index.content == [] ==> kept == []
  {
    hide IsLineTable, LinesOf, IsGrouping, Blocks.AreBlocks, Expansions, Matcher.CanMatchNewline, Matcher.FindSpans,
         MatchesOnLines, BlockCount;
    MatchesAreOnLines(m, fm.index.content);
  }
}
