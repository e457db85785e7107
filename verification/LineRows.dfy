/** What the events of a line are, told from the buffer: where each row stands, what
    it shows and what it marks. */
module LineRows {
  import opened Bytes
  import opened EmitBlocks
  import opened FileMatching
  import opened LineIndexing
  import opened Matchers
  import opened Rewriting
  import opened Traversal

  /** Under `-o` a hit has one row for each span, and the row is the stretch of the
      buffer at the offset it reports. */
  lemma OnlyMatchingRow(fm: FileMatches, opts: MatchOptions, m: Matcher, expand: Expander, k: nat, j: nat)
    requires Listed(fm) && m.Valid() && |fm.replacements| <= k < |fm.hits|
    requires opts.onlyMatching && opts.replace == None && j < |fm.hits[k].spans|
    ensures |HitRows(fm, opts, m, expand, k)| == |fm.hits[k].spans|
    ensures var row, sp := HitRows(fm, opts, m, expand, k)[j], fm.hits[k].spans[j];
            && row.Match? && !row.hidden && row.block == None && row.replacements == None
            && row.lineOffset == fm.index.LineStart(fm.hits[k].idx)
            && row.absoluteOffset == row.lineOffset + sp.start
            && |row.content| == sp.end - sp.start
            && row.absoluteOffset + |row.content| <= |fm.index.content|
            && row.content == fm.index.content[row.absoluteOffset..row.absoluteOffset + |row.content|]
            && row.columns == [row.absoluteOffset - row.lineOffset + 1] && row.spans == [Span(0, |row.content|)]
            && row.columnShifts == [] && row.offsetShift == 0 && row.terminatorLen == 0
            && row.lineNumber == fm.index.LineOf(row.absoluteOffset) + 1
  {
    hide IsLineTable, BlocksListed, LineIndex.LineOf, LineIndex.LineStart, LineIndex.LineEnd;
    SpanOnLine(fm.index, fm.hits[k].idx, fm.hits[k].spans[j]);
  }

  /** A span of a line's text is a slice of the buffer, on that line. */
  lemma SpanOnLine(index: LineIndex, li: nat, sp: Span)
    requires index.Valid() && li < index.LineCount() && sp.start <= sp.end <= |index.LineText(li)|
    ensures var a := index.LineStart(li);
            && a + sp.end <= |index.content| && index.LineOf(a + sp.start) == li
            && index.LineText(li)[sp.start..sp.end] == index.content[a + sp.start..a + sp.end]
  {
    hide IsLineTable, LineIndex.LineOf;
    SliceInSlice(index.content, index.LineStart(li), index.LineEnd(li), sp.start, sp.end);
    index.LineBorders(li, index.LineStart(li) + sp.start);
  }

  /** Under `-o -r` a hit has one row for each match of its line: the match's
      replacement, which stands in the rewritten line where column and shift say. */
  lemma OnlyReplacedRow(fm: FileMatches, opts: MatchOptions, m: Matcher, expand: Expander, k: nat, j: nat)
    requires Listed(fm) && m.Valid() && |fm.replacements| <= k < |fm.hits|
    requires opts.onlyMatching && opts.replace.Some? && fm.hits[k].spans != []
    requires j < |m.FindSpans(fm.index.LineText(fm.hits[k].idx))|
    ensures var line := fm.index.LineText(fm.hits[k].idx);
            var spans, reps := m.FindSpans(line), Expansions(m, expand, opts.replace.value, line);
            && |HitRows(fm, opts, m, expand, k)| == |spans| && InOrder(reps, 0, |line|)
            && var row, sp := HitRows(fm, opts, m, expand, k)[j], spans[j];
               && row.Match? && !row.hidden && row.block == None && row.replacements == None
               && row.content == expand(opts.replace.value, line, sp) && row.spans == [Span(0, |row.content|)]
               && row.columns == [sp.start + 1] && row.lineOffset == fm.index.LineStart(fm.hits[k].idx)
               && row.absoluteOffset == row.lineOffset + sp.start && row.columnShifts == [row.offsetShift]
               && row.terminatorLen == 0 && row.lineNumber == fm.index.LineOf(row.absoluteOffset) + 1
               && var at := sp.start + row.offsetShift;
                  && 0 <= at && at + |row.content| <= |Rewrite(line, 0, reps, |line|)|
                  && Rewrite(line, 0, reps, |line|)[at..at + |row.content|] == row.content
  {
    hide IsLineTable, BlocksListed, LineIndex.LineOf, LineIndex.LineStart, LineIndex.LineEnd, Rewrite, Landing,
         Matcher.Valid, Matcher.FindSpans;
    var index, li := fm.index, fm.hits[k].idx;
    var line := index.LineText(li);
    var reps := Expansions(m, expand, opts.replace.value, line);
    LineExpansionsInOrder(m, expand, opts.replace.value, line);
    LandingHoldsText(line, 0, reps, |line|, j);
    LandingIsShifted(line, 0, reps, j);
    assert 0 <= reps[j].at.start <= reps[j].at.end <= |line|;
    SpanOnLine(index, li, reps[j].at);
  }

  /** Any other hit has one row, for the line as a whole. It shows and marks the line
      itself, unless the line is rewritten, and carries the reported replacements. */
  lemma WholeLineRow(fm: FileMatches, opts: MatchOptions, m: Matcher, expand: Expander, k: nat)
    requires Listed(fm) && m.Valid() && k < |fm.hits|
    requires opts.onlyMatching && k >= |fm.replacements| ==> fm.hits[k].spans == []
    ensures |HitRows(fm, opts, m, expand, k)| == 1
    ensures var row, index, hit := HitRows(fm, opts, m, expand, k)[0], fm.index, fm.hits[k];
            && row.Match? && !row.hidden && row.block == None && row.lineNumber == hit.idx + 1
            && row.absoluteOffset == row.lineOffset == index.LineStart(hit.idx) && row.offsetShift == 0
            && row.terminatorLen == index.LineStart(hit.idx + 1) - index.LineEnd(hit.idx)
            && |row.columns| == |hit.spans|
            && (forall j | 0 <= j < |hit.spans| :: row.columns[j] == hit.spans[j].start + 1)
            && row.replacements == (if k < |fm.replacements| && hit.spans != [] then Some(fm.replacements[k]) else None)
            && (k < |fm.replacements| || opts.replace == None || hit.spans == [] ==>
                  && row.content == index.content[index.LineStart(hit.idx)..index.LineEnd(hit.idx)]
                  && row.spans == hit.spans && row.columnShifts == [])
  {
    hide IsLineTable, BlocksListed, Expansions, Rewrite, Landing, Matcher.Valid, Matcher.FindSpans;
  }

  // ---------------------------------------------------------------------------
  // Places

  /** An event names the line its offset is on. A row starts its line, unless it shows
      a match alone. */
  ghost predicate InPlace(index: LineIndex, opts: MatchOptions, e: Emit)
    requires index.Valid()
  {
    && 1 <= e.lineNumber <= index.LineCount() && index.LineOf(e.absoluteOffset) == e.lineNumber - 1
    && (e.Match? ==> e.lineOffset == index.LineStart(e.lineNumber - 1))
    && (e.Match? && !opts.onlyMatching ==> e.absoluteOffset == e.lineOffset)
    && (e.Context? ==>
          && e.absoluteOffset == index.LineStart(e.lineNumber - 1)
          && e.content == index.LineText(e.lineNumber - 1)
          && e.terminatorLen == index.LineStart(e.lineNumber) - index.LineEnd(e.lineNumber - 1))
  }

  lemma HitInPlace(fm: FileMatches, opts: MatchOptions, m: Matcher, expand: Expander, k: nat, j: nat)
    requires Listed(fm) && m.Valid() && k < |fm.hits| && j < |HitRows(fm, opts, m, expand, k)|
    ensures var row := HitRows(fm, opts, m, expand, k)[j];
            InPlace(fm.index, opts, row) && row.lineNumber == fm.hits[k].idx + 1
  {
    hide IsLineTable, BlocksListed, HitRows, Matcher.Valid, Matcher.FindSpans, Expansions, Rewrite, InOrder,
         LineIndex.LineOf;
    var index, hit := fm.index, fm.hits[k];
    StartsItself(index, hit.idx);
    if !opts.onlyMatching || k < |fm.replacements| || hit.spans == [] {
      WholeLineRow(fm, opts, m, expand, k);
    } else {
      CountRows(fm, opts, m, expand, k);
      if opts.replace == None {
        OnlyMatchingRow(fm, opts, m, expand, k, j);
        SpanOnLine(index, hit.idx, hit.spans[j]);
      } else {
        var line := index.LineText(hit.idx);
        OnlyReplacedRow(fm, opts, m, expand, k, j);
        m.SpansOrdered(line);
        SpanOnLine(index, hit.idx, m.FindSpans(line)[j]);
      }
    }
  }

  lemma CountRows(fm: FileMatches, opts: MatchOptions, m: Matcher, expand: Expander, k: nat)
    requires Listed(fm) && m.Valid() && |fm.replacements| <= k < |fm.hits|
    requires opts.onlyMatching && fm.hits[k].spans != []
    ensures |HitRows(fm, opts, m, expand, k)|
         == if opts.replace == None then |fm.hits[k].spans| else |m.FindSpans(fm.index.LineText(fm.hits[k].idx))|
  {
    hide IsLineTable, BlocksListed, Matcher.Valid, Matcher.FindSpans;
  }

  lemma StartsItself(index: LineIndex, li: nat)
    requires index.Valid() && li < index.LineCount()
    ensures index.LineOf(index.LineStart(li)) == li
  {
    hide IsLineTable, LineIndex.LineOf;
    index.LineBorders(li, index.LineStart(li));
  }

  lemma LineInPlace(fm: FileMatches, opts: MatchOptions, m: Matcher, expand: Expander, li: nat, e: Emit)
    requires Listed(fm) && m.Valid() && li < fm.index.LineCount() && e in LineEvents(fm, opts, m, expand, li)
    ensures InPlace(fm.index, opts, e) && e.lineNumber == li + 1
  {
    hide IsLineTable, HitsListed, BlocksListed, HitRows, Matcher.Valid, LineIndex.LineOf;
    match HitAt(fm.hits, li, 0)
    case None =>
      StartsItself(fm.index, li);
    case Some(k) =>
      var j :| 0 <= j < |HitRows(fm, opts, m, expand, k)| && HitRows(fm, opts, m, expand, k)[j] == e;
      HitInPlace(fm, opts, m, expand, k, j);
  }

  lemma {:induction false} PartOf<T>(parts: seq<seq<T>>, x: T) returns (k: nat)
    requires x in Flatten(parts)
    ensures k < |parts| && x in parts[k]
  {
    k := |parts| - 1;
    if x !in parts[k] {
      k := PartOf(parts[..k], x);
    }
  }

  /** Whatever goes out by lines is in place, on a line that is to be shown. */
  lemma EventsInPlace(fm: FileMatches, opts: MatchOptions, m: Matcher, expand: Expander, events: seq<Emit>, e: Emit)
    requires Listed(fm) && m.Valid() && IsLineOutput(fm, opts, m, expand, events) && e in events
    ensures InPlace(fm.index, opts, e) && Shown(fm, opts, e.lineNumber - 1)
  {
    hide IsLineTable, HitsListed, BlocksListed, LineEvents, Matcher.Valid, InPlace, Flatten;
    var lines, parts :| IsWalk(fm, opts, m, expand, lines, parts, fm.index.LineCount()) && events == Flatten(parts);
    var k := PartOf(parts, e);
    assert lines[k] in lines;
    LineInPlace(fm, opts, m, expand, lines[k], e);
  }
}
