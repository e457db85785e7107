/** Line-oriented search: the loop over every line, and the whole-buffer prescan
    that proposes the lines worth checking. */
module Prescan {
  import opened Bytes
  import opened Hir
  import opened LineIndexing
  import opened Matchers
  import Pattern
  import Regex

  /** The spans that select line `i`, or `None` when it is not selected. Under
      `-v` a line is selected by not matching and has no spans. */
  function Select(index: LineIndex, m: Matcher, opts: MatchOptions, i: nat): Option<seq<Span>>
    requires index.Valid() && m.Valid()
  {
    var text := index.LineText(i);
    if opts.invertMatch then
      if m.IsMatch(text) then None else Some([])
    else if opts.allSpans then
      if m.FindSpans(text) == [] then None else Some(m.FindSpans(text))
    else
      match m.FindFirst(text) case None => None case Some(sp) => Some([sp])
  }

  predicate Full(opts: MatchOptions, out: seq<LineHit>) {
    opts.maxCount.Some? && |out| >= opts.maxCount.value
  }

  /** The hits found by checking `lines` in turn, after those already in `out`. */
  function Visit(index: LineIndex, m: Matcher, opts: MatchOptions, lines: seq<nat>, out: seq<LineHit>): seq<LineHit>
    requires index.Valid() && m.Valid()
  {
    if lines == [] then out
    else
      match Select(index, m, opts, lines[0])
      case Some(spans) =>
        var out' := out + [LineHit(lines[0], spans)];
        if Full(opts, out') then out' else Visit(index, m, opts, lines[1..], out')
      case None =>
        if opts.stopOnNonmatch && out != [] then out else Visit(index, m, opts, lines[1..], out)
  }

  function LinesFrom(i: nat, n: nat): (lines: seq<nat>)
    requires i <= n
    ensures |lines| == n - i && forall k | 0 <= k < |lines| :: lines[k] == i + k
    decreases n - i
  {
    if i == n then [] else [i] + LinesFrom(i + 1, n)
  }

  /** What a search of every line finds. */
  function PlainHits(index: LineIndex, m: Matcher, opts: MatchOptions): seq<LineHit>
    requires index.Valid() && m.Valid()
  {
    Visit(index, m, opts, LinesFrom(0, index.LineCount()), [])
  }

  // ---------------------------------------------------------------------------
  // What the loop over every line finds

  /** `hits` are exactly the selected lines among `from..stop`, in order. */
  ghost predicate AllSelected(index: LineIndex, m: Matcher, opts: MatchOptions, from: nat, stop: nat,
                              hits: seq<LineHit>)
    requires index.Valid() && m.Valid()
  {
    && (forall k | 0 <= k < |hits| ::
          from <= hits[k].idx < stop && Select(index, m, opts, hits[k].idx) == Some(hits[k].spans))
    && (forall j, k | 0 <= j < k < |hits| :: hits[j].idx < hits[k].idx)
    && (forall i | from <= i < stop && Select(index, m, opts, i).Some? :: HitOn(hits, i))
  }

  /** Why a search may stop before line `n`: the limit is reached by the line
      just taken, or the line just checked is not selected and follows a hit. */
  ghost predicate StopsAt(index: LineIndex, m: Matcher, opts: MatchOptions, n: nat, stop: nat, hits: seq<LineHit>)
    requires index.Valid() && m.Valid()
  {
    || stop == n
    || (opts.maxCount.Some? && |hits| == opts.maxCount.value && hits != [] && hits[|hits| - 1].idx == stop - 1)
    || (opts.stopOnNonmatch && hits != [] && 0 < stop && Select(index, m, opts, stop - 1) == None)
  }

  /** Under `--stop-on-nonmatch` no line between a hit and line `bound` is left out. */
  ghost predicate NoGap(index: LineIndex, m: Matcher, opts: MatchOptions, hits: seq<LineHit>, bound: int)
    requires index.Valid() && m.Valid()
  {
    opts.stopOnNonmatch && hits != [] ==>
      forall i: nat | hits[0].idx <= i < bound :: Select(index, m, opts, i).Some?
  }

  /** The hits are the selected lines before `stop`, which is where a search may
      stop. */
  ghost predicate CutOffAt(index: LineIndex, m: Matcher, opts: MatchOptions, stop: nat, hits: seq<LineHit>)
    requires index.Valid() && m.Valid()
  {
    && stop <= index.LineCount()
    && AllSelected(index, m, opts, 0, stop, hits)
    && StopsAt(index, m, opts, index.LineCount(), stop, hits)
    && NoGap(index, m, opts, hits, stop - 1)
  }

  lemma OneMoreLine(index: LineIndex, m: Matcher, opts: MatchOptions, i: nat, out: seq<LineHit>)
    requires index.Valid() && m.Valid() && AllSelected(index, m, opts, 0, i, out)
    ensures match Select(index, m, opts, i)
            case Some(spans) => AllSelected(index, m, opts, 0, i + 1, out + [LineHit(i, spans)])
            case None => AllSelected(index, m, opts, 0, i + 1, out)
    ensures match Select(index, m, opts, i)
            case Some(spans) =>
              NoGap(index, m, opts, out, i) ==> NoGap(index, m, opts, out + [LineHit(i, spans)], i + 1)
            case None => !opts.stopOnNonmatch || out == [] ==> NoGap(index, m, opts, out, i + 1)
  {
    hide Select, HitOn;
    match Select(index, m, opts, i)
    case None =>
    case Some(spans) =>
      HitOnSnoc(out, LineHit(i, spans));
  }

  /** Where a search may end: `hits` are what is selected before `stop`. */
  ghost predicate EndsAt(index: LineIndex, m: Matcher, opts: MatchOptions, n: nat, stop: nat, hits: seq<LineHit>)
    requires index.Valid() && m.Valid()
  {
    && AllSelected(index, m, opts, 0, stop, hits) && StopsAt(index, m, opts, n, stop, hits)
    && NoGap(index, m, opts, hits, stop - 1)
    && (opts.maxCount.Some? ==> |hits| <= opts.maxCount.value)
  }

  lemma EndsAtLast(index: LineIndex, m: Matcher, opts: MatchOptions, n: nat, out: seq<LineHit>)
    requires index.Valid() && m.Valid() && AllSelected(index, m, opts, 0, n, out) && NoGap(index, m, opts, out, n)
    requires opts.maxCount.Some? ==> |out| <= opts.maxCount.value
    ensures EndsAt(index, m, opts, n, n, out)
  {
    hide Select, AllSelected;
  }

  lemma EndsFull(index: LineIndex, m: Matcher, opts: MatchOptions, n: nat, i: nat, out: seq<LineHit>)
    requires index.Valid() && m.Valid()
    requires AllSelected(index, m, opts, 0, i + 1, out) && NoGap(index, m, opts, out, i + 1)
    requires out != [] && out[|out| - 1].idx == i && opts.maxCount == Some(|out|)
    ensures EndsAt(index, m, opts, n, i + 1, out)
  {
    hide Select, AllSelected;
  }

  lemma EndsUnselected(index: LineIndex, m: Matcher, opts: MatchOptions, n: nat, i: nat, out: seq<LineHit>)
    requires index.Valid() && m.Valid()
    requires AllSelected(index, m, opts, 0, i + 1, out) && NoGap(index, m, opts, out, i)
    requires out != [] && opts.stopOnNonmatch && Select(index, m, opts, i) == None
    requires opts.maxCount.Some? ==> |out| <= opts.maxCount.value
    ensures EndsAt(index, m, opts, n, i + 1, out)
  {
    hide Select, AllSelected;
  }

  lemma {:induction false} VisitMeaning(index: LineIndex, m: Matcher, opts: MatchOptions, i: nat, n: nat,
                                        out: seq<LineHit>)
      returns (stop: nat)
    requires index.Valid() && m.Valid() && i <= n && AllSelected(index, m, opts, 0, i, out)
    requires opts.maxCount.Some? ==> |out| < opts.maxCount.value
    requires NoGap(index, m, opts, out, i)
    ensures i <= stop <= n
    ensures EndsAt(index, m, opts, n, stop, Visit(index, m, opts, LinesFrom(i, n), out))
    decreases n - i
  {
    hide Select, AllSelected, NoGap, StopsAt, EndsAt;
    if i == n {
      stop := n;
      EndsAtLast(index, m, opts, n, out);
    } else {
      assert LinesFrom(i, n)[1..] == LinesFrom(i + 1, n);
      match Select(index, m, opts, i)
      case Some(spans) =>
        var out' := out + [LineHit(i, spans)];
        OneMoreLine(index, m, opts, i, out);
        if Full(opts, out') {
          stop := i + 1;
          EndsFull(index, m, opts, n, i, out');
        } else {
          stop := VisitMeaning(index, m, opts, i + 1, n, out');
        }
      case None =>
        OneMoreLine(index, m, opts, i, out);
        if opts.stopOnNonmatch && out != [] {
          stop := i + 1;
          EndsUnselected(index, m, opts, n, i, out);
        } else {
          stop := VisitMeaning(index, m, opts, i + 1, n, out);
        }
    }
  }

  /** The plain search finds the first `max_count` selected lines, up to the line
      `--stop-on-nonmatch` stops at. */
  lemma PlainHitsMeaning(index: LineIndex, m: Matcher, opts: MatchOptions)
    requires index.Valid() && m.Valid() && opts.maxCount != Some(0)
    ensures exists stop: nat :: CutOffAt(index, m, opts, stop, PlainHits(index, m, opts))
    ensures opts.maxCount.Some? ==> |PlainHits(index, m, opts)| <= opts.maxCount.value
  {
    hide Visit, Select, LinesFrom;
    var stop := VisitMeaning(index, m, opts, 0, index.LineCount(), []);
    assert CutOffAt(index, m, opts, stop, PlainHits(index, m, opts));
  }

  /** Whether line `i` is to be found: it has a match, or under `-v` none. */
  ghost predicate Wanted(index: LineIndex, m: Matcher, opts: MatchOptions, i: nat)
    requires index.Valid() && m.Valid()
  {
    (m.FindSpans(index.LineText(i)) == []) == opts.invertMatch
  }

  ghost predicate IsWantedHit(index: LineIndex, m: Matcher, opts: MatchOptions, hit: LineHit)
    requires index.Valid() && m.Valid()
  {
    && Wanted(index, m, opts, hit.idx)
    && var spans := m.FindSpans(index.LineText(hit.idx));
       hit.spans == if opts.invertMatch then [] else if opts.allSpans then spans else spans[..1]
  }

  /** The hits are the wanted lines before `stop`, each with the matches to show on it:
      none under `-v`, else all or just the first. The search goes on to the end, to
      the line that reaches the limit, or under `--stop-on-nonmatch` to the first line
      after a hit that is not wanted. */
  ghost predicate IsSearched(index: LineIndex, m: Matcher, opts: MatchOptions, stop: nat, hits: seq<LineHit>)
    requires index.Valid() && m.Valid()
  {
    && stop <= index.LineCount()
    && (forall j, k | 0 <= j < k < |hits| :: hits[j].idx < hits[k].idx)
    && (forall k | 0 <= k < |hits| :: hits[k].idx < stop && IsWantedHit(index, m, opts, hits[k]))
    && (forall i: nat | i < stop && Wanted(index, m, opts, i) :: HitOn(hits, i))
    && (opts.maxCount.Some? ==> |hits| <= opts.maxCount.value)
    && (opts.stopOnNonmatch && hits != [] ==>
          forall i: nat | hits[0].idx <= i < stop - 1 :: Wanted(index, m, opts, i))
    && (|| stop == index.LineCount()
        || (opts.maxCount == Some(|hits|) && hits != [] && hits[|hits| - 1].idx == stop - 1)
        || (opts.stopOnNonmatch && hits != [] && 0 < stop && !Wanted(index, m, opts, stop - 1)))
  }

  /** What `Select` selects, in terms of the line's matches. */
  lemma SelectMeaning(index: LineIndex, m: Matcher, opts: MatchOptions, i: nat)
    requires index.Valid() && m.Valid()
    ensures Select(index, m, opts, i).Some? <==> Wanted(index, m, opts, i)
    ensures Select(index, m, opts, i).Some? ==>
              IsWantedHit(index, m, opts, LineHit(i, Select(index, m, opts, i).value))
  {
    hide IsLineTable, Matcher.FindSpans, Matcher.FindFirst, Matcher.IsMatch;
    m.FirstOfAll(index.LineText(i));
  }

  /** The search of every line, inverted or not, in terms of the matches of the lines. */
  lemma PlainHitsSearched(index: LineIndex, m: Matcher, opts: MatchOptions)
    requires index.Valid() && m.Valid() && opts.maxCount != Some(0)
    ensures exists stop: nat :: IsSearched(index, m, opts, stop, PlainHits(index, m, opts))
  {
    hide IsLineTable, PlainHits, Select, Wanted, IsWantedHit, HitOn, Matcher.FindSpans;
    PlainHitsMeaning(index, m, opts);
    var hits := PlainHits(index, m, opts);
    var stop: nat :| CutOffAt(index, m, opts, stop, hits);
    forall i: nat
      ensures Select(index, m, opts, i).Some? <==> Wanted(index, m, opts, i)
    {
      SelectMeaning(index, m, opts, i);
    }
    forall k | 0 <= k < |hits|
      ensures IsWantedHit(index, m, opts, hits[k])
    {
      SelectMeaning(index, m, opts, hits[k].idx);
      assert hits[k] == LineHit(hits[k].idx, Select(index, m, opts, hits[k].idx).value);
    }
    assert IsSearched(index, m, opts, stop, hits);
  }

  // ---------------------------------------------------------------------------
  // Skipping lines that are not selected

  function SelectedOf(index: LineIndex, m: Matcher, opts: MatchOptions, lines: seq<nat>): seq<nat>
    requires index.Valid() && m.Valid()
  {
    if lines == [] then []
    else (if Select(index, m, opts, lines[0]).Some? then [lines[0]] else []) + SelectedOf(index, m, opts, lines[1..])
  }

  lemma {:induction false} VisitSkips(index: LineIndex, m: Matcher, opts: MatchOptions, lines: seq<nat>,
                                      out: seq<LineHit>)
    requires index.Valid() && m.Valid() && !opts.stopOnNonmatch
    ensures Visit(index, m, opts, lines, out) == Visit(index, m, opts, SelectedOf(index, m, opts, lines), out)
  {
    if lines != [] {
      var kept := SelectedOf(index, m, opts, lines);
      match Select(index, m, opts, lines[0])
      case Some(spans) =>
        assert kept[0] == lines[0] && kept[1..] == SelectedOf(index, m, opts, lines[1..]);
        VisitSkips(index, m, opts, lines[1..], out + [LineHit(lines[0], spans)]);
      case None =>
        assert kept == SelectedOf(index, m, opts, lines[1..]);
        VisitSkips(index, m, opts, lines[1..], out);
    }
  }

  lemma HeadOrTail(s: seq<nat>)
    requires s != []
    ensures forall x :: x in s <==> x == s[0] || x in s[1..]
  {
    assert s == [s[0]] + s[1..];
  }

  lemma ConsAscending(x: nat, tail: seq<nat>)
    requires StrictlyAscending(tail) && forall y | y in tail :: x < y
    ensures StrictlyAscending([x] + tail)
    ensures forall y :: y in [x] + tail <==> y == x || y in tail
  {
    assert forall k | 0 <= k < |tail| :: tail[k] in tail;
  }

  lemma {:induction false} SelectedOfMembers(index: LineIndex, m: Matcher, opts: MatchOptions, lines: seq<nat>)
    requires index.Valid() && m.Valid() && StrictlyAscending(lines)
    ensures StrictlyAscending(SelectedOf(index, m, opts, lines))
    ensures forall i :: i in SelectedOf(index, m, opts, lines) <==> i in lines && Select(index, m, opts, i).Some?
  {
    if lines != [] {
      var tail := SelectedOf(index, m, opts, lines[1..]);
      SelectedOfMembers(index, m, opts, lines[1..]);
      HeadOrTail(lines);
      if Select(index, m, opts, lines[0]).Some? {
        ConsAscending(lines[0], tail);
      }
    }
  }

  // ---------------------------------------------------------------------------
  // The prescan

  /** The prescan declines: order of lines matters, the engine or the pattern
      rules it out, or the pattern matches the empty text. */
  predicate Declines(m: Matcher, opts: MatchOptions) {
    || opts.stopOnNonmatch
    || m.Fancy?
    || !Pattern.AnchorFreeText(m.re.Text())
    || m.re.IsMatch([])
  }

  ghost predicate Touches(index: LineIndex, sp: Span, line: nat)
    requires index.Valid()
  {
    index.LineOf(sp.start) <= line <= index.LineOf(sp.end)
  }

  ghost predicate IsTouched(index: LineIndex, spans: seq<Span>, line: nat)
    requires index.Valid()
  {
    exists sp | sp in spans :: Touches(index, sp, line)
  }

  /** The lines some match of the whole buffer touches, each once, ascending. */
  ghost predicate IsCandidateList(index: LineIndex, spans: seq<Span>, lines: seq<nat>)
    requires index.Valid()
  {
    && StrictlyAscending(lines)
    && forall li: nat :: li in lines <==> IsTouched(index, spans, li)
  }

  /** Push the lines `first..=final` of one match, skipping a repeat of `last`. */
  method PushLines(lines: seq<nat>, last: Option<nat>, first: nat, final: nat)
      returns (lines': seq<nat>, last': Option<nat>)
    requires StrictlyAscending(lines) && first <= final
    requires last == if lines == [] then None else Some(lines[|lines| - 1])
    requires last.Some? ==> last.value <= first
    ensures StrictlyAscending(lines') && lines' != []
    ensures last' == Some(final) && lines'[|lines'| - 1] == final
    ensures forall x: nat :: x in lines' <==> x in lines || first <= x <= final
  {
    lines', last' := lines, last;
    var li := first;
    while li <= final
      invariant first <= li <= final + 1
      invariant last' == if lines' == [] then None else Some(lines'[|lines'| - 1])
      invariant StrictlyAscending(lines')
      invariant if li == first then last' == last else last' == Some(li - 1)
      invariant forall x: nat :: x in lines' <==> x in lines || first <= x < li
    {
      if last' != Some(li) {
        lines' := lines' + [li];
        last' := Some(li);
      }
      li := li + 1;
    }
  }

  lemma OneMoreSpan(index: LineIndex, spans: seq<Span>, k: nat, before: seq<nat>, lines: seq<nat>)
    requires index.Valid() && k < |spans| && StrictlyAscending(lines)
    requires IsCandidateList(index, spans[..k], before)
    requires forall x: nat :: x in lines <==> x in before || Touches(index, spans[k], x)
    ensures IsCandidateList(index, spans[..k + 1], lines)
  {
    hide Touches;
    var more := spans[..k + 1];
    assert more == spans[..k] + [spans[k]];
    assert forall sp :: sp in more <==> sp in spans[..k] || sp == spans[k];
    forall li: nat
      ensures IsTouched(index, more, li) <==> IsTouched(index, spans[..k], li) || Touches(index, spans[k], li)
    {
      if IsTouched(index, more, li) {
        var sp :| sp in more && Touches(index, sp, li);
        assert sp in spans[..k] || sp == spans[k];
      } else {
        assert spans[k] in more;
      }
    }
  }

  /** The prescan: scan the buffer once and list the lines each match touches,
      dropping a line that repeats the one before it. */
  method CandidateLines(index: LineIndex, m: Matcher, opts: MatchOptions) returns (r: Option<seq<nat>>)
    requires index.Valid() && m.Valid()
    ensures r.None? <==> Declines(m, opts)
    ensures r.Some? ==> IsCandidateList(index, m.FindSpans(index.content), r.value)
  {
    if opts.stopOnNonmatch || m.Fancy? {
      return None;
    }
    var free := Pattern.PatternIsAnchorFree(m.re.Text());
    if !free || m.re.IsMatch([]) {
      return None;
    }
    var spans := m.re.FindSpans(index.content);
    m.SpansOrdered(index.content);
    var lines: seq<nat> := [];
    var last: Option<nat> := None;
    var k := 0;
    while k < |spans|
      invariant 0 <= k <= |spans|
      invariant IsCandidateList(index, spans[..k], lines)
      invariant last == if lines == [] then None else Some(lines[|lines| - 1])
      invariant last.Some? ==> k > 0 && last.value == index.LineOf(spans[k - 1].end)
      invariant k > 0 ==> last.Some?
    {
      var first, final := index.LineOf(spans[k].start), index.LineOf(spans[k].end);
      index.LineOfMonotone(spans[k].start, spans[k].end);
      if k > 0 {
        index.LineOfMonotone(spans[k - 1].end, spans[k].start);
      }
      ghost var before := lines;
      lines, last := PushLines(lines, last, first, final);
      assert IsCandidateList(index, spans[..k + 1], lines) by {
        OneMoreSpan(index, spans, k, before, lines);
      }
      k := k + 1;
    }
    assert spans[..k] == spans;
    return Some(lines);
  }

  /** Every line with a match in its own text is touched by a match of the
      buffer. */
  lemma MatchingLineIsTouched(index: LineIndex, re: Regex.Regex, i: nat)
    requires index.Valid() && re.Valid() && AnchorFree(re.Expr())
    requires i < index.LineCount() && re.IsMatch(index.LineText(i))
    ensures IsTouched(index, re.Matched(index.content), i)
  {
    hide AnchorFree, IsLineTable, Regex.Regex.MatchStartsAt, Regex.Regex.Valid;
    var p := LineMatchInBuffer(index, re, i);
    re.IterationCovers(index.content, 0, None, p);
    var spans := re.Matched(index.content);
    var k :| 0 <= k < |spans| && spans[k].start <= p <= spans[k].end;
    index.LineBorders(i, p);
    index.LineOfMonotone(spans[k].start, p);
    index.LineOfMonotone(p, spans[k].end);
    assert spans[k] in spans && Touches(index, spans[k], i);
  }

  /** A line's match is a match of the buffer that starts on the line's text. */
  lemma LineMatchInBuffer(index: LineIndex, re: Regex.Regex, i: nat) returns (p: nat)
    requires index.Valid() && re.Valid() && AnchorFree(re.Expr())
    requires i < index.LineCount() && re.IsMatch(index.LineText(i))
    ensures index.LineStart(i) <= p <= index.LineEnd(i) && re.MatchStartsAt(index.content, p)
  {
    hide AnchorFree, IsLineTable, IsLineSlice, Regex.Regex.Reports;
    var buf, a, b := index.content, index.LineStart(i), index.LineEnd(i);
    LineIsSlice(index, i);
    re.MatchedEmpty(buf[a..b]);
    var q: nat :| re.MatchStartsAt(buf[a..b], q);
    var e: nat :| re.Reports(buf[a..b], Span(q, e));
    ReportBounds(re, buf[a..b], Span(q, e));
    re.ReportsIsLocal(buf, a, b, Span(q, e));
    p := a + q;
  }

  lemma ReportBounds(re: Regex.Regex, hay: bytes, sp: Span)
    requires re.Reports(hay, sp)
    ensures sp.start <= sp.end <= |hay|
  {
  }

  lemma LineIsSlice(index: LineIndex, i: nat)
    requires index.Valid() && i < index.LineCount()
    ensures IsLineSlice(index.content, index.LineStart(i), index.LineEnd(i))
  {
    hide IsLineTable;
    index.LineBorders(i, index.LineStart(i));
  }

  lemma TouchedLineExists(index: LineIndex, re: Regex.Regex, i: nat)
    requires index.Valid() && re.Valid() && !re.IsMatch([])
    requires IsTouched(index, re.Matched(index.content), i)
    ensures i < index.LineCount()
  {
    re.MatchedEmpty(index.content);
    var sp :| sp in re.Matched(index.content) && Touches(index, sp, i);
    assert index.content != [];
  }

  /** A selected line is a candidate exactly when the buffer has that line. */
  lemma SelectedIsCandidate(index: LineIndex, m: Matcher, opts: MatchOptions, i: nat)
    requires index.Valid() && m.Valid() && !opts.invertMatch && !Declines(m, opts)
    requires Select(index, m, opts, i).Some?
    ensures IsTouched(index, m.FindSpans(index.content), i) <==> i < index.LineCount()
  {
    hide IsTouched;
    Pattern.AnchorFreePattern(m.re.ast, m.re.flags);
    m.FirstOfAll(index.LineText(i));
    if IsTouched(index, m.FindSpans(index.content), i) {
      TouchedLineExists(index, m.re, i);
    }
    if i < index.LineCount() {
      MatchingLineIsTouched(index, m.re, i);
    }
  }

  /** The prescan changes nothing: checking only the candidate lines finds the
      same lines with the same spans as checking every line. */
  lemma PrescanIsExact(index: LineIndex, m: Matcher, opts: MatchOptions, lines: seq<nat>)
    requires index.Valid() && m.Valid() && !opts.invertMatch && !Declines(m, opts)
    requires IsCandidateList(index, m.FindSpans(index.content), lines)
    ensures Visit(index, m, opts, lines, []) == PlainHits(index, m, opts)
  {
    hide Visit, SelectedOf, IsTouched, Select;
    var all := LinesFrom(0, index.LineCount());
    VisitSkips(index, m, opts, lines, []);
    VisitSkips(index, m, opts, all, []);
    SelectedOfMembers(index, m, opts, lines);
    SelectedOfMembers(index, m, opts, all);
    forall i: nat | Select(index, m, opts, i).Some?
      ensures i in lines <==> i in all
    {
      SelectedIsCandidate(index, m, opts, i);
      assert i < index.LineCount() ==> all[i] == i;
    }
    AscendingUnique(SelectedOf(index, m, opts, lines), SelectedOf(index, m, opts, all));
  }

  lemma VisitAt(index: LineIndex, m: Matcher, opts: MatchOptions, lines: seq<nat>, k: nat, out: seq<LineHit>)
    requires index.Valid() && m.Valid() && k < |lines|
    ensures Visit(index, m, opts, lines[k..], out)
         == match Select(index, m, opts, lines[k])
            case Some(spans) =>
              var out' := out + [LineHit(lines[k], spans)];
              if Full(opts, out') then out' else Visit(index, m, opts, lines[k + 1..], out')
            case None =>
              if opts.stopOnNonmatch && out != [] then out else Visit(index, m, opts, lines[k + 1..], out)
  {
    assert lines[k..][1..] == lines[k + 1..];
  }

  lemma VisitDone(index: LineIndex, m: Matcher, opts: MatchOptions, lines: seq<nat>, out: seq<LineHit>)
    requires index.Valid() && m.Valid()
    ensures Visit(index, m, opts, lines[|lines|..], out) == out
    ensures lines[0..] == lines
  {
  }

  /** Inverted search: the lines that do not match. */
  method InvertedHits(index: LineIndex, m: Matcher, opts: MatchOptions) returns (out: seq<LineHit>)
    requires index.Valid() && m.Valid() && opts.invertMatch
    ensures out == PlainHits(index, m, opts)
  {
    hide Visit, IsLineTable, Matcher.Valid, Matcher.FindSpans, Matcher.FindFirst, Matcher.IsMatch;
    out := [];
    ghost var lines := LinesFrom(0, index.LineCount());
    VisitDone(index, m, opts, lines, out);
    var i := 0;
    while i < index.LineCount()
      invariant 0 <= i <= index.LineCount()
      invariant Visit(index, m, opts, lines[i..], out) == PlainHits(index, m, opts)
    {
      VisitAt(index, m, opts, lines, i, out);
      if !m.IsMatch(index.LineText(i)) {
        out := out + [LineHit(i, [])];
        if Full(opts, out) {
          return;
        }
      } else if opts.stopOnNonmatch && out != [] {
        return;
      }
      i := i + 1;
    }
    VisitDone(index, m, opts, lines, out);
  }

  /** Check `lines` in turn, until the limit or a line that stops the search. */
  method VisitEach(index: LineIndex, m: Matcher, opts: MatchOptions, lines: seq<nat>) returns (out: seq<LineHit>)
    requires index.Valid() && m.Valid() && !opts.invertMatch
    ensures out == Visit(index, m, opts, lines, [])
  {
    hide Visit;
    out := [];
    VisitDone(index, m, opts, lines, out);
    var k := 0;
    while k < |lines|
      invariant 0 <= k <= |lines|
      invariant Visit(index, m, opts, lines[k..], out) == Visit(index, m, opts, lines, [])
    {
      VisitAt(index, m, opts, lines, k, out);
      var text := index.LineText(lines[k]);
      var spans: seq<Span>;
      if opts.allSpans {
        spans := m.FindSpans(text);
      } else {
        var first := m.FindFirst(text);
        spans := if first.Some? then [first.value] else [];
      }
      if spans != [] {
        out := out + [LineHit(lines[k], spans)];
        if Full(opts, out) {
          return;
        }
      } else if opts.stopOnNonmatch && out != [] {
        return;
      }
      k := k + 1;
    }
    VisitDone(index, m, opts, lines, out);
  }

  /** Selected lines and their spans, by whichever way is open. */
  method CollectHits(index: LineIndex, m: Matcher, opts: MatchOptions) returns (out: seq<LineHit>)
    requires index.Valid() && m.Valid()
    ensures out == PlainHits(index, m, opts)
  {
    hide Visit;
    if opts.invertMatch {
      out := InvertedHits(index, m, opts);
      return;
    }
    var candidates := CandidateLines(index, m, opts);
    if candidates.Some? {
      PrescanIsExact(index, m, opts, candidates.value);
      out := VisitEach(index, m, opts, candidates.value);
    } else {
      out := VisitEach(index, m, opts, LinesFrom(0, index.LineCount()));
    }
  }
}
