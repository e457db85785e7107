/** Walking the matches of a file in output order. */
module Traversal {
  import opened Bytes
  import opened Blocks
  import opened EmitBlocks
  import opened FileMatching
  import opened LineIndexing
  import opened Matchers
  import opened Rewriting
  import opened Spans
  import BlockOutput
  import Cursors
  import Prescan

  function ContextLine(index: LineIndex, li: nat): Emit
    requires index.Valid()
  {
    Context(li + 1, index.LineText(li), index.LineStart(li), index.LineTerminatorLen(li))
  }

  // ---------------------------------------------------------------------------
  // One hit

  /** The columns of spans: their starts, counted from one. */
  function Columns(spans: seq<Span>): (r: seq<nat>)
    ensures |r| == |spans| && forall k | 0 <= k < |r| :: r[k] == spans[k].start + 1
  {
    seq(|spans|, k requires 0 <= k < |spans| => spans[k].start + 1)
  }

  /** `-o -r`: one row per match of the line, with its replacement as the text. */
  function ReplacementRow(index: LineIndex, li: nat, reps: seq<Expansion>, k: nat): Emit
    requires index.Valid() && k < |reps|
  {
    var rep, offset, shift := reps[k], index.LineStart(li), Shift(reps[..k]);
    Match(li + 1, rep.text, [rep.at.start + 1], [Span(0, |rep.text|)], offset + rep.at.start, offset,
          [shift], shift, 0, None, false, None)
  }

  /** `-o`: one row per span, with the matched text. */
  function SpanRow(index: LineIndex, hit: LineHit, k: nat): Emit
    requires index.Valid() && k < |hit.spans| && SpansInOrder(hit.spans, |index.LineText(hit.idx)|)
  {
    var sp, offset := hit.spans[k], index.LineStart(hit.idx);
    Match(hit.idx + 1, index.LineText(hit.idx)[sp.start..sp.end], [sp.start + 1], [Span(0, sp.end - sp.start)],
          offset + sp.start, offset, [], 0, 0, None, false, None)
  }

  /** How far each column moves once the line is rewritten. */
  function ColumnShifts(spans: seq<Span>, landed: seq<Span>): (r: seq<int>)
    ensures |r| == |spans|
  {
    seq(|spans|, k requires 0 <= k < |spans| => if k < |landed| then landed[k].start - spans[k].start else 0)
  }

  function LineRow(index: LineIndex, hit: LineHit, content: bytes, spans: seq<Span>, shifts: seq<int>,
                   texts: Option<seq<bytes>>): Emit
    requires index.Valid()
  {
    var offset := index.LineStart(hit.idx);
    Match(hit.idx + 1, content, Columns(hit.spans), spans, offset, offset, shifts, 0,
          index.LineTerminatorLen(hit.idx), None, false, texts)
  }

  function LandingsOf(line: bytes, reps: seq<Expansion>): seq<Span>
    requires InOrder(reps, 0, |line|)
  {
    seq(|reps|, k requires 0 <= k < |reps| => Landing(line, 0, reps, k))
  }

  /** The rows of one hit. */
  function HitRows(fm: FileMatches, opts: MatchOptions, m: Matcher, expand: Expander, k: nat): seq<Emit>
    requires Listed(fm) && m.Valid() && k < |fm.hits|
  {
    var index, hit := fm.index, fm.hits[k];
    var line := index.LineText(hit.idx);
    if k < |fm.replacements| && hit.spans != [] then
      [LineRow(index, hit, line, hit.spans, [], Some(fm.replacements[k]))]
    else if opts.onlyMatching && hit.spans != [] then
      match opts.replace
      case Some(template) =>
        var reps := Expansions(m, expand, template, line);
        seq(|reps|, j requires 0 <= j < |reps| => ReplacementRow(index, hit.idx, reps, j))
      case None =>
        seq(|hit.spans|, j requires 0 <= j < |hit.spans| => SpanRow(index, hit, j))
    else if opts.replace.Some? && hit.spans != [] then
      LineExpansionsInOrder(m, expand, opts.replace.value, line);
      var reps := Expansions(m, expand, opts.replace.value, line);
      var landed := LandingsOf(line, reps);
      [LineRow(index, hit, Rewrite(line, 0, reps, |line|), landed, ColumnShifts(hit.spans, landed), None)]
    else [LineRow(index, hit, line, hit.spans, [], None)]
  }

  lemma LineExpansionsInOrder(m: Matcher, expand: Expander, template: bytes, line: bytes)
    requires m.Valid()
    ensures InOrder(Expansions(m, expand, template, line), 0, |line|)
  {
    var reps := Expansions(m, expand, template, line);
    ExpansionsInOrder(m, expand, template, line, |reps|);
    assert reps[..|reps|] == reps;
  }

  method EmitHit(fm: FileMatches, opts: MatchOptions, m: Matcher, expand: Expander, k: nat) returns (events: seq<Emit>)
    requires Listed(fm) && m.Valid() && k < |fm.hits|
    ensures events == HitRows(fm, opts, m, expand, k)
  {
    hide IsLineTable, BlocksListed, Expansions;
    var index, hit := fm.index, fm.hits[k];
    var line := index.LineText(hit.idx);
    if k < |fm.replacements| && hit.spans != [] {
      return [LineRow(index, hit, line, hit.spans, [], Some(fm.replacements[k]))];
    }
    if opts.onlyMatching && hit.spans != [] {
      if opts.replace.Some? {
        events := EmitReplacementRows(index, hit.idx, Expansions(m, expand, opts.replace.value, line));
      } else {
        events := EmitSpanRows(index, hit);
      }
      return;
    }
    if opts.replace.Some? && hit.spans != [] {
      LineExpansionsInOrder(m, expand, opts.replace.value, line);
      var reps := Expansions(m, expand, opts.replace.value, line);
      var text, landed := ReplaceAll(line, reps);
      assert landed == LandingsOf(line, reps);
      return [LineRow(index, hit, text, landed, ColumnShifts(hit.spans, landed), None)];
    }
    return [LineRow(index, hit, line, hit.spans, [], None)];
  }

  method EmitReplacementRows(index: LineIndex, li: nat, reps: seq<Expansion>) returns (events: seq<Emit>)
    requires index.Valid()
    ensures events == seq(|reps|, j requires 0 <= j < |reps| => ReplacementRow(index, li, reps, j))
  {
    hide IsLineTable;
    events := [];
    var shift, j := 0, 0;
    var offset := index.LineStart(li);
    while j < |reps|
      invariant 0 <= j <= |reps| && |events| == j && shift == Shift(reps[..j])
      invariant forall i | 0 <= i < j :: events[i] == ReplacementRow(index, li, reps, i)
    {
      var rep := reps[j];
      assert reps[..j + 1][..j] == reps[..j];
      events := events + [Match(li + 1, rep.text, [rep.at.start + 1], [Span(0, |rep.text|)], offset + rep.at.start,
                                offset, [shift], shift, 0, None, false, None)];
      shift := shift + |rep.text| - (rep.at.end - rep.at.start);
      j := j + 1;
    }
  }

  method EmitSpanRows(index: LineIndex, hit: LineHit) returns (events: seq<Emit>)
    requires index.Valid() && SpansInOrder(hit.spans, |index.LineText(hit.idx)|)
    ensures events == seq(|hit.spans|, j requires 0 <= j < |hit.spans| => SpanRow(index, hit, j))
  {
    hide IsLineTable;
    events := [];
    var j := 0;
    while j < |hit.spans|
      invariant 0 <= j <= |hit.spans| && |events| == j
      invariant forall i | 0 <= i < j :: events[i] == SpanRow(index, hit, i)
    {
      events := events + [SpanRow(index, hit, j)];
      j := j + 1;
    }
  }

  /** Under `-o -r` a row's column and shift add up to where its replacement starts
      in the rewritten line, which is where `replace_all` puts it. */
  lemma ReplacementRowPosition(index: LineIndex, li: nat, reps: seq<Expansion>, k: nat)
    requires index.Valid() && InOrder(reps, 0, |index.LineText(li)|) && k < |reps|
    ensures var row, line := ReplacementRow(index, li, reps, k), index.LineText(li);
            var l := Landing(line, 0, reps, k);
            && row.columns[0] + row.columnShifts[0] == l.start + 1
            && row.absoluteOffset + row.offsetShift == index.LineStart(li) + l.start
            && l.end <= |Rewrite(line, 0, reps, |line|)|
            && Rewrite(line, 0, reps, |line|)[l.start..l.end] == row.content
  {
    hide IsLineTable;
    LandingIsShifted(index.LineText(li), 0, reps, k);
    LandingHoldsText(index.LineText(li), 0, reps, |index.LineText(li)|, k);
  }

  /** Under `-r` without `-o` a hit has one row, and its `j`-th column and shift add
      up to where the replacement of the line's `j`-th match stands in it. */
  lemma ColumnPosition(fm: FileMatches, opts: MatchOptions, m: Matcher, expand: Expander, k: nat, j: nat)
    requires Listed(fm) && m.Valid() && |fm.replacements| <= k < |fm.hits|
    requires !opts.onlyMatching && opts.replace.Some?
    requires j < |fm.hits[k].spans| && j < |m.FindSpans(fm.index.LineText(fm.hits[k].idx))|
    ensures |HitRows(fm, opts, m, expand, k)| == 1
    ensures var row, line := HitRows(fm, opts, m, expand, k)[0], fm.index.LineText(fm.hits[k].idx);
            && j < |row.columns| && row.columns[j] == fm.hits[k].spans[j].start + 1
            && Shows(row, j, expand(opts.replace.value, line, m.FindSpans(line)[j]))
  {
    hide IsLineTable, HitsListed, BlocksListed, Rewrite, Landing, Shift, Matcher.FindSpans;
    var hit, line := fm.hits[k], fm.index.LineText(fm.hits[k].idx);
    LineExpansionsInOrder(m, expand, opts.replace.value, line);
    var reps := Expansions(m, expand, opts.replace.value, line);
    var landed := LandingsOf(line, reps);
    var row := LineRow(fm.index, hit, Rewrite(line, 0, reps, |line|), landed, ColumnShifts(hit.spans, landed), None);
    assert HitRows(fm, opts, m, expand, k) == [row];
    LandingHoldsText(line, 0, reps, |line|, j);
    LandingIsShifted(line, 0, reps, j);
    assert row.columns[j] + row.columnShifts[j] - 1 == landed[j].start;
  }

  /** The `j`-th column and its shift, counted from one, are where `text` stands in
      the row, and the row marks it there. */
  ghost predicate Shows(row: Emit, j: nat, text: bytes) {
    && row.Match? && j < |row.columns| && j < |row.columnShifts| && j < |row.spans|
    && var at := row.columns[j] + row.columnShifts[j] - 1;
       && 0 <= at && at + |text| <= |row.content|
       && row.content[at..at + |text|] == text
       && row.spans[j] == Span(at, at + |text|)
  }

  /** A line search reports each match at its own replacement, because the spans of
      its hits are the line's first matches. */
  lemma LineSearchColumns(fm: FileMatches, opts: MatchOptions, m: Matcher, expand: Expander, k: nat, j: nat)
    requires Listed(fm) && m.Valid() && FoundByLine(fm, m, opts, expand) && opts.maxCount != Some(0)
    requires !opts.onlyMatching && opts.replace.Some? && !opts.reportReplacements
    requires k < |fm.hits| && j < |fm.hits[k].spans|
    ensures |HitRows(fm, opts, m, expand, k)| == 1
    ensures var row, line := HitRows(fm, opts, m, expand, k)[0], fm.index.LineText(fm.hits[k].idx);
            && j < |row.columns| && row.columns[j] == fm.hits[k].spans[j].start + 1
            && Shows(row, j, expand(opts.replace.value, line, fm.hits[k].spans[j]))
  {
    hide IsLineTable, HitsListed, BlocksListed, Rewrite, Landing, Matcher.FindSpans, Prescan.PlainHits, Shows,
         Expansions;
    PlainHitsListed(fm.index, m, opts);
    var line := fm.index.LineText(fm.hits[k].idx);
    assert fm.hits[k] in fm.hits;
    LineExpansionsInOrder(m, expand, opts.replace.value, line);
    ColumnPosition(fm, opts, m, expand, k, j);
    assert m.FindSpans(line)[j] == fm.hits[k].spans[j];
  }

  // ---------------------------------------------------------------------------
  // Lines in order

  /** The lines shown: all of them, the hits, or the hits with their context. */
  ghost predicate Shown(fm: FileMatches, opts: MatchOptions, li: nat) {
    li < fm.index.LineCount()
    && if opts.passthru then true
       else if opts.beforeContext == 0 && opts.afterContext == 0 then HitOn(fm.hits, li)
       else InWindow(HitLines(fm.hits), fm.index.LineCount(), opts.beforeContext, opts.afterContext, li)
  }

  /** What context is: without `--passthru`, the lines up to `before` lines before a hit
      or up to `after` lines after it. */
  lemma ShownMeaning(fm: FileMatches, opts: MatchOptions, li: nat)
    requires Listed(fm)
    ensures Shown(fm, opts, li)
       <==> && li < fm.index.LineCount()
            && (opts.passthru
                || exists k | 0 <= k < |fm.hits| ::
                     fm.hits[k].idx <= li + opts.beforeContext && li <= fm.hits[k].idx + opts.afterContext)
  {
    hide IsLineTable, BlocksListed, LineIndex.LineText;
  }

  function HitLines(hits: seq<LineHit>): (r: seq<nat>)
    ensures |r| == |hits| && forall k | 0 <= k < |r| :: r[k] == hits[k].idx
  {
    seq(|hits|, k requires 0 <= k < |hits| => hits[k].idx)
  }

  /** Position of the hit on line `li` in the list, by search from `k`. */
  function HitAt(hits: seq<LineHit>, li: nat, k: nat): (r: Option<nat>)
    requires k <= |hits|
    ensures r.Some? ==> k <= r.value < |hits| && hits[r.value].idx == li
    ensures r.None? ==> forall i | k <= i < |hits| :: hits[i].idx != li
    decreases |hits| - k
  {
    if k == |hits| then None else if hits[k].idx == li then Some(k) else HitAt(hits, li, k + 1)
  }

  /** The events of one shown line: its hit's rows, or a context line. */
  function LineEvents(fm: FileMatches, opts: MatchOptions, m: Matcher, expand: Expander, li: nat): seq<Emit>
    requires Listed(fm) && m.Valid()
  {
    match HitAt(fm.hits, li, 0)
    case Some(k) => HitRows(fm, opts, m, expand, k)
    case None => [ContextLine(fm.index, li)]
  }

  /** `lines` are the shown lines before `bound`, ascending. */
  ghost predicate ShownBelow(fm: FileMatches, opts: MatchOptions, lines: seq<nat>, bound: nat) {
    StrictlyAscending(lines) && forall li: nat :: li in lines <==> li < bound && Shown(fm, opts, li)
  }

  /** `parts` are the events of the shown lines `lines`, in order. */
  ghost predicate IsWalk(fm: FileMatches, opts: MatchOptions, m: Matcher, expand: Expander,
                         lines: seq<nat>, parts: seq<seq<Emit>>, bound: nat)
    requires Listed(fm) && m.Valid()
  {
    ShownBelow(fm, opts, lines, bound) && LinesEmitted(fm, opts, m, expand, lines, parts)
  }

  ghost predicate LinesEmitted(fm: FileMatches, opts: MatchOptions, m: Matcher, expand: Expander,
                               lines: seq<nat>, parts: seq<seq<Emit>>)
    requires Listed(fm) && m.Valid()
  {
    |parts| == |lines| && forall k | 0 <= k < |lines| :: parts[k] == LineEvents(fm, opts, m, expand, lines[k])
  }

  lemma LinesSnoc(fm: FileMatches, opts: MatchOptions, m: Matcher, expand: Expander,
                  lines: seq<nat>, parts: seq<seq<Emit>>, li: nat, part: seq<Emit>)
    requires Listed(fm) && m.Valid() && LinesEmitted(fm, opts, m, expand, lines, parts)
    requires part == LineEvents(fm, opts, m, expand, li)
    ensures LinesEmitted(fm, opts, m, expand, lines + [li], parts + [part])
    ensures Flatten(parts + [part]) == Flatten(parts) + part
  {
    hide Listed, Matcher.Valid, LineEvents;
    FlattenSnoc(parts, part);
  }

  lemma WalkOn(fm: FileMatches, opts: MatchOptions, lines: seq<nat>, li: nat)
    requires ShownBelow(fm, opts, lines, li) && Shown(fm, opts, li)
    ensures ShownBelow(fm, opts, lines + [li], li + 1)
  {
    hide Shown;
    assert forall k | 0 <= k < |lines| :: lines[k] in lines;
  }

  /** Lines that are not shown add nothing. */
  lemma WalkSkip(fm: FileMatches, opts: MatchOptions, lines: seq<nat>, li: nat, next: nat)
    requires ShownBelow(fm, opts, lines, li) && li <= next && forall l | li <= l < next :: !Shown(fm, opts, l)
    ensures ShownBelow(fm, opts, lines, next)
  {
    hide Shown;
  }

  lemma WalkStart(fm: FileMatches, opts: MatchOptions, m: Matcher, expand: Expander)
    requires Listed(fm) && m.Valid()
    ensures ShownBelow(fm, opts, [], 0) && LinesEmitted(fm, opts, m, expand, [], [])
  {
  }

  /** `events` are those of every shown line, once, in ascending order. */
  ghost predicate IsLineOutput(fm: FileMatches, opts: MatchOptions, m: Matcher, expand: Expander, events: seq<Emit>)
    requires Listed(fm) && m.Valid()
  {
    exists lines, parts ::
      IsWalk(fm, opts, m, expand, lines, parts, fm.index.LineCount()) && events == Flatten(parts)
  }

  /** `for_each` without blocks. */
  method ForEachLine(fm: FileMatches, opts: MatchOptions, m: Matcher, expand: Expander) returns (events: seq<Emit>)
    requires Listed(fm) && m.Valid()
    ensures IsLineOutput(fm, opts, m, expand, events)
  {
    if opts.passthru {
      events := EveryLine(fm, opts, m, expand);
    } else if opts.beforeContext == 0 && opts.afterContext == 0 {
      events := HitsOnly(fm, opts, m, expand);
    } else {
      events := HitsInContext(fm, opts, m, expand);
    }
  }

  method EveryLine(fm: FileMatches, opts: MatchOptions, m: Matcher, expand: Expander) returns (events: seq<Emit>)
    requires Listed(fm) && m.Valid() && opts.passthru
    ensures IsLineOutput(fm, opts, m, expand, events)
  {
    hide IsLineTable, LineEvents, ShownBelow, LinesEmitted, HitsListed, BlocksListed;
    events := [];
    ghost var lines: seq<nat>, parts: seq<seq<Emit>> := [], [];
    WalkStart(fm, opts, m, expand);
    for li := 0 to fm.index.LineCount()
      invariant events == Flatten(parts) && IsWalk(fm, opts, m, expand, lines, parts, li)
    {
      WalkOn(fm, opts, lines, li);
      var more := EmitLine(fm, opts, m, expand, li);
      LinesSnoc(fm, opts, m, expand, lines, parts, li, more);
      events, lines, parts := events + more, lines + [li], parts + [more];
    }
  }

  method HitsOnly(fm: FileMatches, opts: MatchOptions, m: Matcher, expand: Expander) returns (events: seq<Emit>)
    requires Listed(fm) && m.Valid() && !opts.passthru && opts.beforeContext == 0 && opts.afterContext == 0
    ensures IsLineOutput(fm, opts, m, expand, events)
  {
    hide IsLineTable, LineEvents, ShownBelow, LinesEmitted, Listed, Shown, HitRows;
    events := [];
    ghost var lines: seq<nat>, parts: seq<seq<Emit>> := [], [];
    WalkStart(fm, opts, m, expand);
    ghost var done := 0;
    for k := 0 to |fm.hits|
      invariant done == (if k == 0 then 0 else fm.hits[k - 1].idx + 1)
      invariant events == Flatten(parts) && IsWalk(fm, opts, m, expand, lines, parts, done)
    {
      ghost var li := fm.hits[k].idx;
      NothingBetweenHits(fm, opts, k);
      WalkSkip(fm, opts, lines, done, li);
      HitLineEvents(fm, opts, m, expand, k);
      WalkOn(fm, opts, lines, li);
      var more := EmitHit(fm, opts, m, expand, k);
      LinesSnoc(fm, opts, m, expand, lines, parts, li, more);
      events, lines, parts := events + more, lines + [li], parts + [more];
      done := li + 1;
    }
    NothingBetweenHits(fm, opts, |fm.hits|);
    WalkSkip(fm, opts, lines, done, fm.index.LineCount());
    assert IsWalk(fm, opts, m, expand, lines, parts, fm.index.LineCount());
  }

  /** Without context no line between one hit and the next is shown. */
  lemma NothingBetweenHits(fm: FileMatches, opts: MatchOptions, k: nat)
    requires Listed(fm) && !opts.passthru && opts.beforeContext == 0 && opts.afterContext == 0 && k <= |fm.hits|
    ensures var from := if k == 0 then 0 else fm.hits[k - 1].idx + 1;
            var to := if k == |fm.hits| then fm.index.LineCount() else fm.hits[k].idx;
            from <= to && forall li | from <= li < to :: !Shown(fm, opts, li)
  {
    hide IsLineTable, BlocksListed;
  }

  lemma HitLineEvents(fm: FileMatches, opts: MatchOptions, m: Matcher, expand: Expander, k: nat)
    requires Listed(fm) && m.Valid() && k < |fm.hits|
    ensures Shown(fm, opts, fm.hits[k].idx)
    ensures LineEvents(fm, opts, m, expand, fm.hits[k].idx) == HitRows(fm, opts, m, expand, k)
  {
    hide HitRows;
    EveryHitShown(fm, opts, k);
  }

  lemma ShownInContext(fm: FileMatches, opts: MatchOptions, li: nat)
    requires !opts.passthru && !(opts.beforeContext == 0 && opts.afterContext == 0) && li < fm.index.LineCount()
    ensures Shown(fm, opts, li)
       <==> InWindow(HitLines(fm.hits), fm.index.LineCount(), opts.beforeContext, opts.afterContext, li)
  {
  }

  method HitsInContext(fm: FileMatches, opts: MatchOptions, m: Matcher, expand: Expander) returns (events: seq<Emit>)
    requires Listed(fm) && m.Valid() && !opts.passthru && !(opts.beforeContext == 0 && opts.afterContext == 0)
    ensures IsLineOutput(fm, opts, m, expand, events)
  {
    hide IsLineTable, LineEvents, ShownBelow, LinesEmitted, HitsListed, BlocksListed, InWindow, Shown, Matcher.Valid;
    var printed := ExpandContextWindow(HitLines(fm.hits), fm.index.LineCount(), opts.beforeContext, opts.afterContext);
    events := [];
    ghost var lines: seq<nat>, parts: seq<seq<Emit>> := [], [];
    WalkStart(fm, opts, m, expand);
    for li := 0 to fm.index.LineCount()
      invariant events == Flatten(parts) && IsWalk(fm, opts, m, expand, lines, parts, li)
    {
      ShownInContext(fm, opts, li);
      if li in printed {
        WalkOn(fm, opts, lines, li);
        var more := EmitLine(fm, opts, m, expand, li);
        LinesSnoc(fm, opts, m, expand, lines, parts, li, more);
        events, lines, parts := events + more, lines + [li], parts + [more];
      } else {
        WalkSkip(fm, opts, lines, li, li + 1);
      }
    }
  }

  method EmitLine(fm: FileMatches, opts: MatchOptions, m: Matcher, expand: Expander, li: nat)
      returns (events: seq<Emit>)
    requires Listed(fm) && m.Valid()
    ensures events == LineEvents(fm, opts, m, expand, li)
  {
    hide IsLineTable, HitsListed, BlocksListed, HitRows;
    match HitAt(fm.hits, li, 0) {
      case Some(k) => events := EmitHit(fm, opts, m, expand, k);
      case None => events := [ContextLine(fm.index, li)];
    }
  }

  /** Every hit's line is shown, so every hit is emitted, and only once. */
  lemma EveryHitShown(fm: FileMatches, opts: MatchOptions, k: nat)
    requires Listed(fm) && k < |fm.hits|
    ensures Shown(fm, opts, fm.hits[k].idx) && HitAt(fm.hits, fm.hits[k].idx, 0) == Some(k)
  {
    hide BlocksListed, IsLineTable;
    assert HitLines(fm.hits)[k] == fm.hits[k].idx;
  }

  // ---------------------------------------------------------------------------
  // Blocks in order

  /** Something the walk over blocks emits: a whole block, or a line outside. */
  datatype Item = BlockItem(k: nat) | LineItem(li: nat)

  function FirstOf(blocks: seq<ReplaceBlock>, it: Item): nat
    requires it.BlockItem? ==> it.k < |blocks|
  {
    match it case BlockItem(k) => blocks[k].first case LineItem(li) => li
  }

  function LastOf(blocks: seq<ReplaceBlock>, it: Item): nat
    requires it.BlockItem? ==> it.k < |blocks|
  {
    match it case BlockItem(k) => blocks[k].last case LineItem(li) => li
  }

  predicate InBlock(b: ReplaceBlock, li: nat) {
    b.first <= li <= b.last
  }

  ghost predicate InSomeBlock(blocks: seq<ReplaceBlock>, li: nat) {
    exists k | 0 <= k < |blocks| :: InBlock(blocks[k], li)
  }

  /** Within the context of some block line. */
  ghost predicate NearBlock(blocks: seq<ReplaceBlock>, before: nat, after: nat, li: nat) {
    exists mi: nat :: InSomeBlock(blocks, mi) && mi - before <= li <= mi + after
  }

  /** The lines outside blocks that are shown. */
  ghost predicate ShownOutside(fm: FileMatches, opts: MatchOptions, li: nat) {
    && li < fm.index.LineCount() && !InSomeBlock(fm.blocks, li)
    && (opts.passthru
        || (!(opts.beforeContext == 0 && opts.afterContext == 0)
            && NearBlock(fm.blocks, opts.beforeContext, opts.afterContext, li)))
  }

  predicate InReach(b: ReplaceBlock, opts: MatchOptions, li: nat) {
    b.first <= li + opts.beforeContext && li <= b.last + opts.afterContext
  }

  /** Which they are: all under `--passthru`, and else those up to `before` lines before
      a block or up to `after` lines after it. */
  lemma OutsideMeaning(fm: FileMatches, opts: MatchOptions, li: nat)
    requires BlocksApart(fm.blocks, fm.index.LineCount())
    ensures ShownOutside(fm, opts, li)
       <==> && li < fm.index.LineCount()
            && (forall k | 0 <= k < |fm.blocks| :: !(fm.blocks[k].first <= li <= fm.blocks[k].last))
            && (opts.passthru
                || exists k | 0 <= k < |fm.blocks| :: InReach(fm.blocks[k], opts, li))
  {
    if k :| 0 <= k < |fm.blocks| && InReach(fm.blocks[k], opts, li) {
      var mi: nat := Clamp(li, fm.blocks[k].first, fm.blocks[k].last);
      assert InBlock(fm.blocks[k], mi);
      assert InSomeBlock(fm.blocks, mi);
    }
  }

  /** `events` are what `emit_block` makes of `b`. */
  ghost predicate IsBlockEvents(b: ReplaceBlock, opts: MatchOptions, end: nat, events: seq<Emit>) {
    exists rows :: RowsOf(b, end, rows)
      && events == if BlockOutput.VisibleRows(b, end, rows, opts) == [] then [BlockOutput.HiddenRow(b)]
                   else BlockOutput.VisibleRows(b, end, rows, opts)
  }

  /** A block of the list, or a shown line outside all of them. */
  ghost predicate OnTour(fm: FileMatches, opts: MatchOptions, it: Item) {
    match it
    case BlockItem(k) => k < |fm.blocks|
    case LineItem(li) => ShownOutside(fm, opts, li)
  }

  /** A tour of the blocks, with everything before line `bound` done: the blocks
      that start there, each once, and the shown lines outside blocks, all in
      source order. */
  ghost predicate IsTour(fm: FileMatches, opts: MatchOptions, items: seq<Item>, bound: nat) {
    && (forall k | 0 <= k < |items| :: OnTour(fm, opts, items[k]) && LastOf(fm.blocks, items[k]) < bound)
    && (forall j, k | 0 <= j < k < |items| :: LastOf(fm.blocks, items[j]) < FirstOf(fm.blocks, items[k]))
    && (forall k | 0 <= k < |fm.blocks| && fm.blocks[k].first < bound :: BlockItem(k) in items)
    && (forall li: nat | li < bound && ShownOutside(fm, opts, li) :: LineItem(li) in items)
  }

  lemma TourStart(fm: FileMatches, opts: MatchOptions)
    ensures IsTour(fm, opts, [], 0)
  {
  }

  /** An item that starts at the bound and is all there is up to its end extends
      the tour. */
  lemma TourOn(fm: FileMatches, opts: MatchOptions, items: seq<Item>, li: nat, it: Item)
    requires IsTour(fm, opts, items, li)
    requires OnTour(fm, opts, it) && li == FirstOf(fm.blocks, it) <= LastOf(fm.blocks, it)
    requires forall k | 0 <= k < |fm.blocks| && li <= fm.blocks[k].first <= LastOf(fm.blocks, it) :: it == BlockItem(k)
    requires forall l | li <= l <= LastOf(fm.blocks, it) && ShownOutside(fm, opts, l) :: it == LineItem(l)
    ensures IsTour(fm, opts, items + [it], LastOf(fm.blocks, it) + 1)
  {
    hide ShownOutside;
  }

  lemma BlockStep(fm: FileMatches, opts: MatchOptions, items: seq<Item>, k: nat)
    requires BlocksApart(fm.blocks, fm.index.LineCount()) && k < |fm.blocks|
    requires IsTour(fm, opts, items, fm.blocks[k].first)
    ensures IsTour(fm, opts, items + [BlockItem(k)], fm.blocks[k].last + 1)
  {
    hide IsTour, NearBlock;
    forall l | fm.blocks[k].first <= l <= fm.blocks[k].last
      ensures !ShownOutside(fm, opts, l)
    {
      assert InBlock(fm.blocks[k], l);
    }
    TourOn(fm, opts, items, fm.blocks[k].first, BlockItem(k));
  }

  lemma LineStep(fm: FileMatches, opts: MatchOptions, items: seq<Item>, li: nat)
    requires BlocksApart(fm.blocks, fm.index.LineCount())
    requires IsTour(fm, opts, items, li) && ShownOutside(fm, opts, li)
    ensures IsTour(fm, opts, items + [LineItem(li)], li + 1)
  {
    hide IsTour, NearBlock;
    assert forall k | 0 <= k < |fm.blocks| :: !InBlock(fm.blocks[k], li);
    TourOn(fm, opts, items, li, LineItem(li));
  }

  lemma BlockSkip(fm: FileMatches, opts: MatchOptions, items: seq<Item>, li: nat, next: nat)
    requires IsTour(fm, opts, items, li) && li <= next
    requires forall k | 0 <= k < |fm.blocks| :: fm.blocks[k].first < li || next <= fm.blocks[k].first
    requires forall l | li <= l < next :: !ShownOutside(fm, opts, l)
    ensures IsTour(fm, opts, items, next)
  {
    hide OnTour, ShownOutside;
  }

  /** `events` are what is emitted for an item. */
  ghost predicate IsItem(fm: FileMatches, opts: MatchOptions, it: Item, events: seq<Emit>)
    requires fm.index.Valid()
  {
    match it
    case BlockItem(k) =>
      k < |fm.blocks| && IsBlockEvents(fm.blocks[k], opts, fm.index.LineStart(fm.blocks[k].last + 1), events)
    case LineItem(li) => li < fm.index.LineCount() && events == [ContextLine(fm.index, li)]
  }

  /** `parts` are what is emitted for `items`, one by one. */
  ghost predicate Emitted(fm: FileMatches, opts: MatchOptions, items: seq<Item>, parts: seq<seq<Emit>>)
    requires fm.index.Valid()
  {
    |parts| == |items| && forall k | 0 <= k < |items| :: IsItem(fm, opts, items[k], parts[k])
  }

  lemma NothingEmitted(fm: FileMatches, opts: MatchOptions)
    requires fm.index.Valid()
    ensures Emitted(fm, opts, [], [])
  {
  }

  lemma LineIsItem(fm: FileMatches, opts: MatchOptions, li: nat)
    requires fm.index.Valid() && li < fm.index.LineCount()
    ensures IsItem(fm, opts, LineItem(li), [ContextLine(fm.index, li)])
  {
  }

  lemma EmittedSnoc(fm: FileMatches, opts: MatchOptions, items: seq<Item>, parts: seq<seq<Emit>>, it: Item,
                    part: seq<Emit>)
    requires fm.index.Valid() && Emitted(fm, opts, items, parts) && IsItem(fm, opts, it, part)
    ensures Emitted(fm, opts, items + [it], parts + [part])
    ensures Flatten(parts + [part]) == Flatten(parts) + part
  {
    hide IsItem;
    FlattenSnoc(parts, part);
  }

  /** The walk over blocks: a tour, and what is emitted on it. */
  ghost predicate IsBlockWalk(fm: FileMatches, opts: MatchOptions, items: seq<Item>, parts: seq<seq<Emit>>, bound: nat)
    requires fm.index.Valid()
  {
    IsTour(fm, opts, items, bound) && Emitted(fm, opts, items, parts)
  }

  /** Where the walk stands when the first `k` blocks are done. */
  function LinesDone(blocks: seq<ReplaceBlock>, k: nat): nat
    requires k <= |blocks|
  {
    if k == 0 then 0 else blocks[k - 1].last + 1
  }

  /** Lines between block `k - 1` and block `k` are in no block. */
  lemma BetweenBlocks(fm: FileMatches, k: nat)
    requires BlocksApart(fm.blocks, fm.index.LineCount()) && k <= |fm.blocks|
    ensures LinesDone(fm.blocks, k) <= if k < |fm.blocks| then fm.blocks[k].first else fm.index.LineCount()
    ensures forall j | 0 <= j < k :: fm.blocks[j].first <= fm.blocks[j].last < LinesDone(fm.blocks, k)
    ensures forall j | k <= j < |fm.blocks| :: fm.blocks[k].first <= fm.blocks[j].first
    ensures forall l: nat | LinesDone(fm.blocks, k) <= l && (k < |fm.blocks| ==> l < fm.blocks[k].first) ::
              !InSomeBlock(fm.blocks, l)
  {
    hide IsLineTable, HitsListed, IsSomeBlock;
  }

  /** The lines of all blocks. */
  method BlockLines(blocks: seq<ReplaceBlock>) returns (lines: seq<nat>)
    ensures forall li: nat :: li in lines <==> InSomeBlock(blocks, li)
  {
    lines := [];
    var k := 0;
    while k < |blocks|
      invariant 0 <= k <= |blocks|
      invariant forall li: nat :: li in lines <==> exists j | 0 <= j < k :: InBlock(blocks[j], li)
    {
      var li := blocks[k].first;
      ghost var before := lines;
      while li <= blocks[k].last
        invariant blocks[k].first <= li
        invariant forall l: nat :: l in lines <==> l in before || (blocks[k].first <= l < li && l <= blocks[k].last)
      {
        lines := lines + [li];
        li := li + 1;
      }
      k := k + 1;
    }
  }

  lemma WindowOfBlocks(blocks: seq<ReplaceBlock>, lines: seq<nat>, total: nat, before: nat, after: nat)
    requires forall li: nat :: li in lines <==> InSomeBlock(blocks, li)
    ensures forall li: nat ::
              InWindow(lines, total, before, after, li) <==> li < total && NearBlock(blocks, before, after, li)
  {
    forall li: nat
      ensures InWindow(lines, total, before, after, li) <==> li < total && NearBlock(blocks, before, after, li)
    {
      if InWindow(lines, total, before, after, li) {
        var k :| 0 <= k < |lines| && lines[k] - before <= li <= lines[k] + after;
        assert lines[k] in lines;
      }
      if li < total && NearBlock(blocks, before, after, li) {
        var mi: nat :| InSomeBlock(blocks, mi) && mi - before <= li <= mi + after;
        assert mi in lines;
      }
    }
  }

  /** `events` are those of every block and of every shown line outside blocks,
      each once, in source order. */
  ghost predicate IsBlockOutput(fm: FileMatches, opts: MatchOptions, events: seq<Emit>)
    requires fm.index.Valid()
  {
    exists items, parts ::
      IsBlockWalk(fm, opts, items, parts, fm.index.LineCount()) && events == Flatten(parts)
  }

  /** `for_each_block`. */
  method ForEachBlock(fm: FileMatches, opts: MatchOptions) returns (events: seq<Emit>)
    requires Listed(fm)
    ensures IsBlockOutput(fm, opts, events)
  {
    if opts.passthru {
      events := BlocksAndAllLines(fm, opts);
    } else if opts.beforeContext == 0 && opts.afterContext == 0 {
      events := BlocksOnly(fm, opts);
    } else {
      events := BlocksInContext(fm, opts);
    }
  }

  method BlockEvents(fm: FileMatches, opts: MatchOptions, k: nat) returns (events: seq<Emit>)
    requires Listed(fm) && k < |fm.blocks|
    ensures IsItem(fm, opts, BlockItem(k), events) && events != []
  {
    hide IsLineTable, IsSomeBlock, HitsListed, BlockOutput.VisibleRows;
    var b := fm.blocks[k];
    ghost var end := fm.index.LineStart(b.last + 1);
    assert IsSomeBlock(fm.index, b);
    SomeBlockLayout(fm.index, b);
    ghost var rows;
    events, rows := BlockOutput.EmitBlock(b, opts, end);
  }

  lemma SomeBlockLayout(index: LineIndex, b: ReplaceBlock)
    requires index.Valid() && IsSomeBlock(index, b)
    ensures Cursors.Layout(b, index.LineStart(b.last + 1))
  {
    hide IsLineTable, IsBlock, Cursors.Layout;
    var members :| IsBlock(index, b, members);
    Cursors.BlockLayout(index, b, members);
  }

  /** `--passthru`: the lines from `from` up to `to`, none of them in a block. */
  method PassLines(fm: FileMatches, opts: MatchOptions, from: nat, to: nat, ghost items: seq<Item>,
                   ghost parts: seq<seq<Emit>>)
      returns (events: seq<Emit>, ghost items': seq<Item>, ghost parts': seq<seq<Emit>>)
    requires Listed(fm) && opts.passthru && from <= to <= fm.index.LineCount()
    requires forall l: nat | from <= l < to :: !InSomeBlock(fm.blocks, l)
    requires IsBlockWalk(fm, opts, items, parts, from)
    ensures IsBlockWalk(fm, opts, items', parts', to) && Flatten(parts') == Flatten(parts) + events
    ensures |events| == to - from && forall i | 0 <= i < |events| :: events[i] == ContextLine(fm.index, from + i)
  {
    hide IsLineTable, HitsListed, BlocksApart, IsSomeBlock, InSomeBlock, IsTour, Emitted;
    events, items', parts' := [], items, parts;
    for li := from to to
      invariant IsBlockWalk(fm, opts, items', parts', li) && Flatten(parts') == Flatten(parts) + events
      invariant |events| == li - from && forall i | 0 <= i < |events| :: events[i] == ContextLine(fm.index, from + i)
    {
      LineStep(fm, opts, items', li);
      EmittedSnoc(fm, opts, items', parts', LineItem(li), [ContextLine(fm.index, li)]);
      events := events + [ContextLine(fm.index, li)];
      items', parts' := items' + [LineItem(li)], parts' + [[ContextLine(fm.index, li)]];
    }
  }

  method BlocksAndAllLines(fm: FileMatches, opts: MatchOptions) returns (events: seq<Emit>)
    requires Listed(fm) && opts.passthru
    ensures IsBlockOutput(fm, opts, events)
  {
    hide IsLineTable, HitsListed, BlocksApart, IsSomeBlock, IsTour, Emitted, IsItem, InSomeBlock;
    events := [];
    ghost var items: seq<Item>, parts: seq<seq<Emit>> := [], [];
    TourStart(fm, opts);
    NothingEmitted(fm, opts);
    var li := 0;
    for k := 0 to |fm.blocks|
      invariant li == LinesDone(fm.blocks, k)
      invariant events == Flatten(parts) && IsBlockWalk(fm, opts, items, parts, li)
    {
      BetweenBlocks(fm, k);
      BlockOnLines(fm, k);
      var gap;
      gap, items, parts := PassLines(fm, opts, li, fm.blocks[k].first, items, parts);
      var more := BlockEvents(fm, opts, k);
      BlockStep(fm, opts, items, k);
      EmittedSnoc(fm, opts, items, parts, BlockItem(k), more);
      events, items, parts := events + gap + more, items + [BlockItem(k)], parts + [more];
      li := fm.blocks[k].last + 1;
    }
    BetweenBlocks(fm, |fm.blocks|);
    var gap;
    gap, items, parts := PassLines(fm, opts, li, fm.index.LineCount(), items, parts);
    events := events + gap;
  }

  lemma BlockOnLines(fm: FileMatches, k: nat)
    requires Listed(fm) && k < |fm.blocks|
    ensures fm.blocks[k].first <= fm.blocks[k].last < fm.index.LineCount()
  {
  }

  method BlocksOnly(fm: FileMatches, opts: MatchOptions) returns (events: seq<Emit>)
    requires Listed(fm) && !opts.passthru && opts.beforeContext == 0 && opts.afterContext == 0
    ensures IsBlockOutput(fm, opts, events)
  {
    hide IsLineTable, HitsListed, BlocksApart, IsSomeBlock, IsTour, Emitted, IsItem, InSomeBlock;
    events := [];
    ghost var items: seq<Item>, parts: seq<seq<Emit>> := [], [];
    TourStart(fm, opts);
    NothingEmitted(fm, opts);
    for k := 0 to |fm.blocks|
      invariant events == Flatten(parts) && IsBlockWalk(fm, opts, items, parts, LinesDone(fm.blocks, k))
    {
      BetweenBlocks(fm, k);
      BlockSkip(fm, opts, items, LinesDone(fm.blocks, k), fm.blocks[k].first);
      var more := BlockEvents(fm, opts, k);
      BlockStep(fm, opts, items, k);
      EmittedSnoc(fm, opts, items, parts, BlockItem(k), more);
      events, items, parts := events + more, items + [BlockItem(k)], parts + [more];
    }
    BetweenBlocks(fm, |fm.blocks|);
    BlockSkip(fm, opts, items, LinesDone(fm.blocks, |fm.blocks|), fm.index.LineCount());
    assert IsBlockWalk(fm, opts, items, parts, fm.index.LineCount());
  }

  method BlocksInContext(fm: FileMatches, opts: MatchOptions) returns (events: seq<Emit>)
    requires Listed(fm) && !opts.passthru && !(opts.beforeContext == 0 && opts.afterContext == 0)
    ensures IsBlockOutput(fm, opts, events)
  {
    hide IsLineTable, HitsListed, BlocksApart, IsSomeBlock, IsTour, Emitted, IsItem, InSomeBlock, NearBlock, InWindow;
    var lines := BlockLines(fm.blocks);
    var printed := ExpandContextWindow(lines, fm.index.LineCount(), opts.beforeContext, opts.afterContext);
    WindowOfBlocks(fm.blocks, lines, fm.index.LineCount(), opts.beforeContext, opts.afterContext);
    events := [];
    ghost var items: seq<Item>, parts: seq<seq<Emit>> := [], [];
    TourStart(fm, opts);
    NothingEmitted(fm, opts);
    var k := 0;
    var insideUntil: Option<nat> := None;
    ghost var bound := 0;
    for li := 0 to fm.index.LineCount()
      invariant 0 <= k <= |fm.blocks|
      invariant bound == Max(li, if insideUntil.Some? then insideUntil.value + 1 else 0) <= fm.index.LineCount()
      invariant LinesDone(fm.blocks, k) <= bound && (k < |fm.blocks| ==> bound <= fm.blocks[k].first)
      invariant events == Flatten(parts) && IsBlockWalk(fm, opts, items, parts, bound)
    {
      if insideUntil.Some? && li <= insideUntil.value {
        continue;
      }
      BetweenBlocks(fm, k);
      if k < |fm.blocks| && fm.blocks[k].first == li {
        BlockIsNear(fm, opts.beforeContext, opts.afterContext, k);
      }
      if li in printed {
        if k < |fm.blocks| && fm.blocks[k].first == li {
          var more := BlockEvents(fm, opts, k);
          BlockStep(fm, opts, items, k);
          EmittedSnoc(fm, opts, items, parts, BlockItem(k), more);
          events, items, parts := events + more, items + [BlockItem(k)], parts + [more];
          insideUntil := Some(fm.blocks[k].last);
          bound := fm.blocks[k].last + 1;
          BlockOnLines(fm, k);
          k := k + 1;
          BetweenBlocks(fm, k);
        } else {
          LineStep(fm, opts, items, li);
          LineIsItem(fm, opts, li);
          EmittedSnoc(fm, opts, items, parts, LineItem(li), [ContextLine(fm.index, li)]);
          events := events + [ContextLine(fm.index, li)];
          items, parts := items + [LineItem(li)], parts + [[ContextLine(fm.index, li)]];
          bound := li + 1;
        }
      } else {
        BlockSkip(fm, opts, items, li, li + 1);
        bound := li + 1;
      }
    }
  }

  lemma BlockIsNear(fm: FileMatches, before: nat, after: nat, k: nat)
    requires Listed(fm) && k < |fm.blocks|
    ensures fm.blocks[k].first < fm.index.LineCount() && NearBlock(fm.blocks, before, after, fm.blocks[k].first)
  {
    hide IsLineTable, HitsListed, IsSomeBlock;
    assert InBlock(fm.blocks[k], fm.blocks[k].first);
    assert InSomeBlock(fm.blocks, fm.blocks[k].first);
  }

  // ---------------------------------------------------------------------------
  // Either

  /** `for_each`. */
  method ForEach(fm: FileMatches, opts: MatchOptions, m: Matcher, expand: Expander) returns (events: seq<Emit>)
    requires Listed(fm) && m.Valid()
    ensures fm.blocks != [] ==> IsBlockOutput(fm, opts, events)
    ensures fm.blocks == [] ==> IsLineOutput(fm, opts, m, expand, events)
  {
    hide IsBlockOutput, IsLineOutput, Listed;
    if fm.blocks != [] {
      events := ForEachBlock(fm, opts);
    } else {
      events := ForEachLine(fm, opts, m, expand);
    }
  }
}
