/** Matching one file: the lines and spans to report, and the blocks or
    replacements that go with them. */
module FileMatching {
  import opened Bytes
  import opened Blocks
  import opened LineIndexing
  import opened Matchers
  import opened ReplacementGroups
  import opened Rewriting
  import opened Spans
  import Prescan
  import SpanOrder

  /** How a replacement template expands for one match. Capture groups belong to
      the engine, so any expansion is allowed. */
  type Expander = (bytes, bytes, Span) -> bytes

  /** The expanded replacement for each match of `hay`. */
  function Expansions(m: Matcher, expand: Expander, template: bytes, hay: bytes): (r: seq<Expansion>)
    requires m.Valid()
    ensures |r| == |m.FindSpans(hay)|
  {
    seq(|m.FindSpans(hay)|, k requires 0 <= k < |m.FindSpans(hay)| =>
      Expansion(m.FindSpans(hay)[k], expand(template, hay, m.FindSpans(hay)[k])))
  }

  lemma ExpansionsInOrder(m: Matcher, expand: Expander, template: bytes, hay: bytes, n: nat)
    requires m.Valid() && n <= |m.FindSpans(hay)|
    ensures InOrder(Expansions(m, expand, template, hay)[..n], 0, |hay|)
    ensures SpansOf(Expansions(m, expand, template, hay)[..n]) == m.FindSpans(hay)[..n]
  {
    m.SpansOrdered(hay);
  }

  /** What matching a file found. */
  datatype FileMatches = FileMatches(
    index: LineIndex,
    hits: seq<LineHit>,
    matchTotal: nat,
    lineTotal: nat,
    blocks: seq<ReplaceBlock>,
    replacements: seq<seq<bytes>>)

  /** The hits are on lines of the table, in ascending order. */
  ghost predicate HitsListed(index: LineIndex, hits: seq<LineHit>)
    requires index.Valid()
  {
    && (forall j, k | 0 <= j < k < |hits| :: hits[j].idx < hits[k].idx)
    && (forall k | 0 <= k < |hits| ::
          hits[k].idx < index.LineCount() && SpansInOrder(hits[k].spans, |index.LineText(hits[k].idx)|))
  }

  ghost predicate IsSomeBlock(index: LineIndex, b: ReplaceBlock)
    requires index.Valid()
  {
    exists members :: IsBlock(index, b, members)
  }

  /** The blocks are laid out, on lines of the table, with a line between them. */
  ghost predicate BlocksListed(index: LineIndex, blocks: seq<ReplaceBlock>)
    requires index.Valid()
  {
    && (forall k | 0 <= k < |blocks| :: IsSomeBlock(index, blocks[k]))
    && BlocksApart(blocks, index.LineCount())
  }

  /** Blocks on the first `total` lines, ascending, a line or more between them. */
  ghost predicate BlocksApart(blocks: seq<ReplaceBlock>, total: nat) {
    && (forall k | 0 <= k < |blocks| :: blocks[k].first <= blocks[k].last < total)
    && (forall j, k | 0 <= j < k < |blocks| :: blocks[j].last + 1 < blocks[k].first)
  }

  ghost predicate Listed(fm: FileMatches) {
    fm.index.Valid() && HitsListed(fm.index, fm.hits) && BlocksListed(fm.index, fm.blocks)
  }

  /** All matches of the buffer but an empty one past a final newline, which is on
      no line. */
  function MatchesOnLines(m: Matcher, content: bytes): seq<Span>
    requires m.Valid()
  {
    var spans := m.FindSpans(content);
    if (content == [] || content[|content| - 1] == NL)
       && spans != [] && spans[|spans| - 1] == Span(|content|, |content|)
    then spans[..|spans| - 1] else spans
  }

  /** The matches on lines are a prefix of all matches, and an empty buffer, which
      has no line, has none. */
  lemma MatchesAreOnLines(m: Matcher, content: bytes)
    requires m.Valid()
    ensures MatchesOnLines(m, content) <= m.FindSpans(content)
    ensures SpansInOrder(MatchesOnLines(m, content), |content|)
    ensures content == [] ==> MatchesOnLines(m, content) == []
  {
    hide Matcher.FindSpans;
    m.SpansOrdered(content);
    DroppedPhantom(m.FindSpans(content), MatchesOnLines(m, content), |content|);
    if content == [] {
      EmptySpans(m.FindSpans(content));
    }
  }

  lemma DroppedPhantom(spans: seq<Span>, kept: seq<Span>, len: nat)
    requires SpansInOrder(spans, len) && (kept == spans || (spans != [] && kept == spans[..|spans| - 1]))
    ensures kept <= spans && SpansInOrder(kept, len)
  {
  }

  /** Spans of an empty text that end at different places are at most one. */
  lemma EmptySpans(spans: seq<Span>)
    requires SpansInOrder(spans, 0) && EndsAscend(spans)
    ensures spans == [] || spans == [Span(0, 0)]
  {
    if spans != [] {
      EndsGrow(spans, |spans| - 1);
    }
  }

  lemma {:induction false} EndsGrow(spans: seq<Span>, k: nat)
    requires EndsAscend(spans) && k < |spans|
    ensures spans[k].end >= k
  {
    if k > 0 {
      EndsGrow(spans, k - 1);
    }
  }

  // ---------------------------------------------------------------------------
  // What find returns

  /** The `kept` matches are the longest run of matches on lines that stays within
      the block limit. */
  ghost predicate IsKept(index: LineIndex, m: Matcher, opts: MatchOptions, kept: seq<Span>)
    requires index.Valid() && m.Valid()
  {
    var all := MatchesOnLines(m, index.content);
    && kept <= all
    && (opts.maxCount == None ==> kept == all)
    && (opts.maxCount.Some? ==>
          && BlockCount(index, kept) <= opts.maxCount.value
          && forall k | |kept| < k <= |all| :: BlockCount(index, all[..k]) > opts.maxCount.value)
  }

  /** Whether matches print as rewritten blocks. */
  predicate PrintsBlocks(m: Matcher, opts: MatchOptions, kept: seq<Span>) {
    opts.replace.Some? && !opts.reportReplacements && opts.replaceBlocks && kept != [] && m.CanMatchNewline()
  }

  /** The kept matches lie on `n` lines. */
  ghost predicate LinesOf(index: LineIndex, kept: seq<Span>, n: nat)
    requires index.Valid()
  {
    exists hits :: IsGrouping(index, kept, hits) && |hits| == n
  }

  /** A multiline search: the kept matches grouped by line, clipped first when one
      row per match is wanted, with their blocks or replacements. */
  ghost predicate FoundMultiline(fm: FileMatches, m: Matcher, opts: MatchOptions, expand: Expander,
                                 kept: seq<Span>, members: seq<seq<Expansion>>)
    requires fm.index.Valid() && m.Valid()
  {
    var index := fm.index;
    && IsKept(index, m, opts, kept)
    && fm.matchTotal == |kept|
    && LinesOf(index, kept, fm.lineTotal)
    && (if opts.replace.Some? && (opts.reportReplacements || PrintsBlocks(m, opts, kept)) then
          var reps := Expansions(m, expand, opts.replace.value, index.content);
          && |kept| <= |reps|
          && IsGrouping(index, kept, fm.hits)
          && (if opts.reportReplacements then
                && fm.blocks == [] && |fm.replacements| == |fm.hits|
                && forall k | 0 <= k < |fm.hits| ::
                     fm.replacements[k] == TextsOn(index, reps[..|kept|], |kept|, fm.hits[k].idx)
              else fm.replacements == [] && AreBlocks(index, fm.blocks, members, reps[..|kept|]))
        else
          && fm.blocks == [] && fm.replacements == []
          && IsGrouping(index, if opts.vimgrep then ClipSpansToStartLine(index, kept) else kept, fm.hits))
  }

  /** A search line by line: the plain hits, each with the expansion of each of its
      spans when replacements are reported. */
  ghost predicate FoundByLine(fm: FileMatches, m: Matcher, opts: MatchOptions, expand: Expander)
    requires fm.index.Valid() && m.Valid()
  {
    && fm.hits == Prescan.PlainHits(fm.index, m, opts)
    && fm.matchTotal == SpanTotal(fm.hits) && fm.lineTotal == |fm.hits|
    && fm.blocks == []
    && if opts.replace.Some? && opts.reportReplacements then
         && |fm.replacements| == |fm.hits|
         && forall k | 0 <= k < |fm.hits| ::
              fm.replacements[k]
              == ExpansionsOf(expand, opts.replace.value, fm.index.LineText(fm.hits[k].idx), fm.hits[k].spans)
       else fm.replacements == []
  }

  /** What a search finds: nothing under a limit of zero, or what the way it goes
      finds. */
  ghost predicate IsFound(fm: FileMatches, m: Matcher, opts: MatchOptions, expand: Expander,
                          kept: seq<Span>, members: seq<seq<Expansion>>)
    requires fm.index.Valid() && m.Valid()
  {
    if opts.maxCount == Some(0) then fm == FileMatches(fm.index, [], 0, 0, [], [])
    else if opts.multiline && !opts.invertMatch then FoundMultiline(fm, m, opts, expand, kept, members)
    else FoundByLine(fm, m, opts, expand)
  }

  function SpanTotal(hits: seq<LineHit>): nat {
    if hits == [] then 0 else SpanTotal(hits[..|hits| - 1]) + |hits[|hits| - 1].spans|
  }

  /** The total counts all spans of the hits. */
  lemma {:induction false} TotalIsAllSpans(hits: seq<LineHit>)
    ensures SpanTotal(hits) == |Flatten(seq(|hits|, k requires 0 <= k < |hits| => hits[k].spans))|
  {
    if hits != [] {
      var init := hits[..|hits| - 1];
      TotalIsAllSpans(init);
      var parts := seq(|hits|, k requires 0 <= k < |hits| => hits[k].spans);
      assert parts[..|hits| - 1] == seq(|init|, k requires 0 <= k < |init| => init[k].spans);
    }
  }

  function ExpansionsOf(expand: Expander, template: bytes, line: bytes, spans: seq<Span>): (r: seq<bytes>)
    ensures |r| == |spans|
  {
    seq(|spans|, k requires 0 <= k < |spans| => expand(template, line, spans[k]))
  }

  // ---------------------------------------------------------------------------
  // The parts are well formed

  lemma GroupingListed(index: LineIndex, spans: seq<Span>, hits: seq<LineHit>)
    requires index.Valid() && IsGrouping(index, spans, hits)
    requires forall k | 0 <= k < |spans| :: SpanOk(index, spans[k])
    requires index.content == [] ==> spans == []
    ensures HitsListed(index, hits)
  {
    hide PiecesOn, RangesOn, SpanOk, IsLineTable;
    NoPieces(index);
    forall k | 0 <= k < |hits|
      ensures hits[k].idx < index.LineCount() && SpansInOrder(hits[k].spans, |index.LineText(hits[k].idx)|)
    {
      TableNotEmpty(index);
      PiecesInTable(index, spans, hits[k].idx);
      RangesAreExact(index, spans, hits[k].idx);
    }
  }

  lemma TableNotEmpty(index: LineIndex)
    requires index.Valid()
    ensures index.content != [] ==> index.LineCount() > 0
  {
  }

  lemma KeptAreOk(index: LineIndex, m: Matcher, opts: MatchOptions, kept: seq<Span>)
    requires index.Valid() && m.Valid() && IsKept(index, m, opts, kept)
    ensures SpansInOrder(kept, |index.content|)
    ensures kept <= m.FindSpans(index.content)
    ensures forall k | 0 <= k < |kept| :: SpanOk(index, kept[k])
    ensures index.content == [] ==> kept == []
  {
    hide BlockCount, MatchesOnLines;
    MatchesAreOnLines(m, index.content);
  }

  lemma ClippedAreOk(index: LineIndex, kept: seq<Span>)
    requires index.Valid() && SpansInOrder(kept, |index.content|)
    requires index.content == [] ==> kept == []
    ensures forall k | 0 <= k < |kept| :: SpanOk(index, ClipSpansToStartLine(index, kept)[k])
  {
    forall k | 0 <= k < |kept|
      ensures SpanOk(index, ClipSpansToStartLine(index, kept)[k])
    {
      ClippedStaysOnStartLine(index, kept[k]);
    }
  }

  lemma PlainHitsListed(index: LineIndex, m: Matcher, opts: MatchOptions)
    requires index.Valid() && m.Valid() && opts.maxCount != Some(0)
    ensures HitsListed(index, Prescan.PlainHits(index, m, opts))
    ensures forall h | h in Prescan.PlainHits(index, m, opts) :: h.spans <= m.FindSpans(index.LineText(h.idx))
  {
    hide IsLineTable, Prescan.PlainHits, Prescan.Select, Prescan.StopsAt, SpansInOrder;
    Prescan.PlainHitsMeaning(index, m, opts);
    var hits := Prescan.PlainHits(index, m, opts);
    var stop: nat :| Prescan.CutOffAt(index, m, opts, stop, hits);
    forall k | 0 <= k < |hits|
      ensures hits[k].idx < index.LineCount() && SpansInOrder(hits[k].spans, |index.LineText(hits[k].idx)|)
      ensures hits[k].spans <= m.FindSpans(index.LineText(hits[k].idx))
    {
      SelectedSpans(index, m, opts, hits[k].idx);
    }
  }

  /** A selected line's spans are the first of its matches. */
  lemma SelectedSpans(index: LineIndex, m: Matcher, opts: MatchOptions, i: nat)
    requires index.Valid() && m.Valid() && Prescan.Select(index, m, opts, i).Some?
    ensures var spans := Prescan.Select(index, m, opts, i).value;
            SpansInOrder(spans, |index.LineText(i)|) && spans <= m.FindSpans(index.LineText(i))
  {
    hide IsLineTable;
    m.SpansOrdered(index.LineText(i));
    m.FirstOfAll(index.LineText(i));
  }

  lemma BuiltListed(index: LineIndex, blocks: seq<ReplaceBlock>, members: seq<seq<Expansion>>, reps: seq<Expansion>)
    requires index.Valid() && AreBlocks(index, blocks, members, reps)
    requires index.content == [] ==> reps == []
    ensures BlocksListed(index, blocks)
  {
    hide IsLineTable, Flatten;
    forall k | 0 <= k < |blocks|
      ensures IsSomeBlock(index, blocks[k])
      ensures blocks[k].first <= blocks[k].last < index.LineCount()
    {
      assert IsBlock(index, blocks[k], members[k]);
      FlattenHas(members, k);
      GroupLines(index, blocks[k].first, blocks[k].last, members[k]);
      TableNotEmpty(index);
    }
  }

  lemma {:induction false} FlattenHas<T>(parts: seq<seq<T>>, k: nat)
    requires k < |parts|
    ensures parts[k] != [] ==> Flatten(parts) != []
  {
    if k < |parts| - 1 {
      FlattenHas(parts[..|parts| - 1], k);
    }
  }

  lemma GroupLines(index: LineIndex, first: nat, last: nat, members: seq<Expansion>)
    requires index.Valid() && IsGroup(index, first, last, members)
    ensures first <= last && (index.content != [] ==> last < index.LineCount())
  {
    var a, b := members[0].at, members[|members| - 1].at;
    LinesOfSpan(index, a);
    LinesOfSpan(index, b);
    if |members| > 1 {
      LastLineMonotone(index, a, b);
    }
  }

  // ---------------------------------------------------------------------------
  // find

  /** The first expansion from the `next`-th on whose match is `sp`. */
  function Seek(expansions: seq<Expansion>, next: nat, sp: Span): (r: nat)
    requires next <= |expansions|
    ensures next <= r <= |expansions|
    decreases |expansions| - next
  {
    if next < |expansions| && expansions[next].at != sp then Seek(expansions, next + 1, sp) else next
  }

  /** Where the search for the `n`-th span starts: after the one found before it. */
  function SeekStart(expansions: seq<Expansion>, spans: seq<Span>, n: nat): (r: nat)
    requires n <= |spans|
    ensures r <= |expansions|
  {
    if n == 0 then 0
    else Min(Seek(expansions, SeekStart(expansions, spans, n - 1), spans[n - 1]) + 1, |expansions|)
  }

  /** The replacement looked up for the `k`-th span, empty if there is none. */
  function LookedUp(expansions: seq<Expansion>, spans: seq<Span>, k: nat): bytes
    requires k < |spans|
  {
    var i := Seek(expansions, SeekStart(expansions, spans, k), spans[k]);
    if i < |expansions| then expansions[i].text else []
  }

  /** Look up the replacement of every span, each from where the one before stopped. */
  method LineReplacements(expansions: seq<Expansion>, spans: seq<Span>) returns (texts: seq<bytes>)
    ensures |texts| == |spans| && forall k | 0 <= k < |spans| :: texts[k] == LookedUp(expansions, spans, k)
  {
    texts := [];
    var k, next := 0, 0;
    while k < |spans|
      invariant 0 <= k <= |spans| && |texts| == k
      invariant next == SeekStart(expansions, spans, k)
      invariant forall j | 0 <= j < k :: texts[j] == LookedUp(expansions, spans, j)
    {
      ghost var start := next;
      while next < |expansions| && expansions[next].at != spans[k]
        invariant start <= next <= |expansions|
        invariant Seek(expansions, next, spans[k]) == Seek(expansions, start, spans[k])
      {
        next := next + 1;
      }
      var text: bytes := [];
      if next < |expansions| {
        text := expansions[next].text;
        next := next + 1;
      }
      texts := texts + [text];
      k := k + 1;
    }
  }

  /** When the spans are the first matches of the line, every look-up finds its own
      expansion. */
  lemma {:induction false} LookUpsSucceed(expansions: seq<Expansion>, spans: seq<Span>, k: nat)
    requires k < |spans| <= |expansions| && forall i | 0 <= i < |spans| :: expansions[i].at == spans[i]
    ensures SeekStart(expansions, spans, k) == k && LookedUp(expansions, spans, k) == expansions[k].text
  {
    if k > 0 {
      LookUpsSucceed(expansions, spans, k - 1);
      assert Seek(expansions, k - 1, spans[k - 1]) == k - 1;
    }
    assert Seek(expansions, k, spans[k]) == k;
  }

  /** The matches a multiline search keeps. */
  method KeptMatches(index: LineIndex, m: Matcher, opts: MatchOptions) returns (kept: seq<Span>)
    requires index.Valid() && m.Valid()
    ensures IsKept(index, m, opts, kept)
  {
    hide BlockCount, IsLineTable, Matcher.FindSpans, FirstLine, Reach;
    var spans := m.FindSpans(index.content);
    if (index.content == [] || index.content[|index.content| - 1] == NL)
       && spans != [] && spans[|spans| - 1] == Span(|index.content|, |index.content|) {
      spans := spans[..|spans| - 1];
    }
    assert spans == MatchesOnLines(m, index.content);
    kept := LimitToLineBlocks(index, spans, opts.maxCount);
  }

  method FindMultiline(index: LineIndex, m: Matcher, opts: MatchOptions, expand: Expander)
      returns (fm: FileMatches, ghost kept: seq<Span>, ghost members: seq<seq<Expansion>>)
    requires index.Valid() && m.Valid()
    ensures fm.index == index && Listed(fm) && FoundMultiline(fm, m, opts, expand, kept, members)
  {
    hide IsGrouping, AreBlocks, HitsListed, BlocksListed, IsLineTable, TextsOn, IsKept, Expansions, SpanOk,
         SpansInOrder;
    members := [];
    var spans := KeptMatches(index, m, opts);
    kept := spans;
    KeptAreOk(index, m, opts, kept);
    var hits := GroupSpansByLine(index, spans);
    GroupingListed(index, kept, hits);
    var total, lines := |spans|, |hits|;
    assert LinesOf(index, kept, lines);
    NothingBuilt(index);
    if opts.replace.Some? && opts.reportReplacements {
      var grouped, texts := GroupKept(index, m, expand, opts.replace.value, spans);
      GroupingIgnoresOrder(index, kept, kept, hits, grouped);
      fm := FileMatches(index, grouped, total, lines, [], texts);
    } else if opts.replace.Some? && opts.replaceBlocks && spans != [] && m.CanMatchNewline() {
      var blocks;
      blocks, members := BuildKept(index, m, expand, opts.replace.value, spans);
      fm := FileMatches(index, hits, total, lines, blocks, []);
    } else {
      if opts.vimgrep {
        ClippedAreOk(index, kept);
        hits := GroupSpansByLine(index, ClipSpansToStartLine(index, spans));
        GroupingListed(index, ClipSpansToStartLine(index, kept), hits);
      }
      fm := FileMatches(index, hits, total, lines, [], []);
    }
  }

  /** The kept matches grouped by line beside their replacements. */
  method GroupKept(index: LineIndex, m: Matcher, expand: Expander, template: bytes, kept: seq<Span>)
      returns (hits: seq<LineHit>, texts: seq<seq<bytes>>)
    requires index.Valid() && m.Valid() && kept <= m.FindSpans(index.content)
    ensures IsGrouping(index, kept, hits) && |texts| == |hits|
    ensures forall k | 0 <= k < |hits| ::
              texts[k] == TextsOn(index, Expansions(m, expand, template, index.content)[..|kept|], |kept|, hits[k].idx)
  {
    hide IsGrouping, IsLineTable, TextsOn, InOrder;
    var reps := Expansions(m, expand, template, index.content)[..|kept|];
    ExpansionsInOrder(m, expand, template, index.content, |kept|);
    assert SpansOf(reps) == kept;
    hits, texts := GroupReplacementsByLine(index, reps);
  }

  /** The blocks of the kept matches. */
  method BuildKept(index: LineIndex, m: Matcher, expand: Expander, template: bytes, kept: seq<Span>)
      returns (blocks: seq<ReplaceBlock>, ghost members: seq<seq<Expansion>>)
    requires index.Valid() && m.Valid() && kept <= m.FindSpans(index.content)
    requires index.content == [] ==> kept == []
    ensures AreBlocks(index, blocks, members, Expansions(m, expand, template, index.content)[..|kept|])
    ensures BlocksListed(index, blocks)
  {
    hide AreBlocks, BlocksListed, IsLineTable, InOrder;
    var reps := Expansions(m, expand, template, index.content)[..|kept|];
    ExpansionsInOrder(m, expand, template, index.content, |kept|);
    blocks, members := Build(index, reps);
    BuiltListed(index, blocks, members, reps);
  }

  lemma NothingBuilt(index: LineIndex)
    requires index.Valid()
    ensures BlocksListed(index, [])
  {
  }

  lemma ExpansionsLookedUp(m: Matcher, expand: Expander, template: bytes, line: bytes, spans: seq<Span>,
                           texts: seq<bytes>)
    requires m.Valid() && spans <= m.FindSpans(line) && |texts| == |spans|
    requires forall k | 0 <= k < |spans| :: texts[k] == LookedUp(Expansions(m, expand, template, line), spans, k)
    ensures texts == ExpansionsOf(expand, template, line, spans)
  {
    hide LookedUp;
    var expansions := Expansions(m, expand, template, line);
    forall k | 0 <= k < |spans|
      ensures texts[k] == expand(template, line, spans[k])
    {
      LookUpsSucceed(expansions, spans, k);
    }
  }

  method FindByLine(index: LineIndex, m: Matcher, opts: MatchOptions, expand: Expander) returns (fm: FileMatches)
    requires index.Valid() && m.Valid() && opts.maxCount != Some(0)
    ensures fm.index == index && Listed(fm) && FoundByLine(fm, m, opts, expand)
  {
    hide HitsListed, BlocksListed, IsLineTable, ExpansionsOf, Prescan.PlainHits;
    var hits := Prescan.CollectHits(index, m, opts);
    PlainHitsListed(index, m, opts);
    NothingBuilt(index);
    var total := CountSpans(hits);
    var replacements: seq<seq<bytes>> := [];
    if opts.replace.Some? && opts.reportReplacements {
      replacements := ReplaceEach(index, m, expand, opts.replace.value, hits);
    }
    fm := FileMatches(index, hits, total, |hits|, [], replacements);
  }

  method ReplaceEach(index: LineIndex, m: Matcher, expand: Expander, template: bytes, hits: seq<LineHit>)
      returns (replacements: seq<seq<bytes>>)
    requires index.Valid() && m.Valid()
    requires forall h | h in hits :: h.spans <= m.FindSpans(index.LineText(h.idx))
    ensures |replacements| == |hits|
    ensures forall k | 0 <= k < |hits| ::
              replacements[k] == ExpansionsOf(expand, template, index.LineText(hits[k].idx), hits[k].spans)
  {
    hide IsLineTable, ExpansionsOf, Expansions, LookedUp, LineIndex.LineText, Matcher.FindSpans, Matcher.Valid;
    replacements := [];
    var k := 0;
    while k < |hits|
      invariant 0 <= k <= |hits| && |replacements| == k
      invariant forall j | 0 <= j < k ::
                  replacements[j] == ExpansionsOf(expand, template, index.LineText(hits[j].idx), hits[j].spans)
    {
      assert hits[k] in hits;
      var line, spans := index.LineText(hits[k].idx), hits[k].spans;
      var expansions := Expansions(m, expand, template, line);
      var texts := LineReplacements(expansions, spans);
      ExpansionsLookedUp(m, expand, template, line, spans, texts);
      replacements := replacements + [texts];
      k := k + 1;
    }
  }

  method CountSpans(hits: seq<LineHit>) returns (total: nat)
    ensures total == SpanTotal(hits)
  {
    total := 0;
    var k := 0;
    while k < |hits|
      invariant 0 <= k <= |hits| && total == SpanTotal(hits[..k])
    {
      assert hits[..k + 1][..k] == hits[..k];
      total := total + |hits[k].spans|;
      k := k + 1;
    }
    assert hits[..k] == hits;
  }

  /** `find`: a limit of zero finds nothing, a multiline search that is not
      inverted works on the whole buffer, any other search line by line. */
  method Find(index: LineIndex, m: Matcher, opts: MatchOptions, expand: Expander)
      returns (fm: FileMatches, ghost kept: seq<Span>, ghost members: seq<seq<Expansion>>)
    requires index.Valid() && m.Valid()
    ensures fm.index == index && Listed(fm)
    ensures IsFound(fm, m, opts, expand, kept, members)
  {
    hide HitsListed, BlocksListed, FoundMultiline, FoundByLine, IsLineTable;
    kept, members := [], [];
    if opts.maxCount == Some(0) {
      NothingBuilt(index);
      NothingHit(index);
      fm := FileMatches(index, [], 0, 0, [], []);
    } else if opts.multiline && !opts.invertMatch {
      fm, kept, members := FindMultiline(index, m, opts, expand);
    } else {
      fm := FindByLine(index, m, opts, expand);
    }
  }

  lemma NothingHit(index: LineIndex)
    requires index.Valid()
    ensures HitsListed(index, [])
  {
  }

  // ---------------------------------------------------------------------------
  // Reported replacements

  /** A line search reports, for each span of each hit, the expansion of that match. */
  lemma ReportedByLine(fm: FileMatches, m: Matcher, opts: MatchOptions, expand: Expander, k: nat, j: nat)
    requires fm.index.Valid() && m.Valid() && FoundByLine(fm, m, opts, expand)
    requires opts.replace.Some? && opts.reportReplacements && k < |fm.hits| && j < |fm.hits[k].spans|
    ensures |fm.replacements| == |fm.hits| && |fm.replacements[k]| == |fm.hits[k].spans|
    ensures fm.replacements[k][j]
         == expand(opts.replace.value, fm.index.LineText(fm.hits[k].idx), fm.hits[k].spans[j])
  {
    hide IsLineTable, Prescan.PlainHits;
  }

  /** A `-U` search reports each kept match at its piece of each line it covers: with its
      expansion where the match starts, with nothing further on. */
  lemma ReportedMultiline(fm: FileMatches, m: Matcher, opts: MatchOptions, expand: Expander,
                          kept: seq<Span>, members: seq<seq<Expansion>>, k: nat, i: nat)
    requires fm.index.Valid() && m.Valid() && FoundMultiline(fm, m, opts, expand, kept, members)
    requires opts.replace.Some? && opts.reportReplacements
    requires k < |fm.hits| && i < |kept| && Covers(fm.index, kept[i], fm.hits[k].idx)
    ensures |fm.replacements| == |fm.hits| && |fm.replacements[k]| == |fm.hits[k].spans|
    ensures var li := fm.hits[k].idx;
            var j := |PiecesOn(fm.index, kept[..i], li)|;
            && j < |fm.hits[k].spans| && fm.hits[k].spans[j] == Piece(fm.index, kept[i], li)
            && fm.replacements[k][j]
               == if fm.index.LineStart(li) <= kept[i].start then expand(opts.replace.value, fm.index.content, kept[i])
                  else []
  {
    hide IsLineTable, PiecesOn, Covers, Piece, LinesOf, IsKept, TextsOn, Matcher.CanMatchNewline, Matcher.FindSpans,
         Matcher.Valid, LineIndex.LineStart;
    var index, li := fm.index, fm.hits[k].idx;
    var reps := Expansions(m, expand, opts.replace.value, index.content)[..|kept|];
    KeptAreOk(index, m, opts, kept);
    assert SpansOf(reps) == kept && SpansOf(reps)[..|kept|] == kept && SpansOf(reps)[..i] == kept[..i];
    PiecesApart(index, kept, li, |index.content|);
    SpanOrder.ApartIsFixed(PiecesOn(index, kept, li));
    TextBesidePiece(index, reps, |kept|, li, i);
  }
}
