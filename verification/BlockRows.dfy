/** What the rows of a block are, told from its rewritten text and the replacements
    that landed in it. */
module BlockRows {
  import opened Bytes
  import opened Blocks
  import opened BlockOutput
  import opened Cursors
  import opened EmitBlocks
  import opened Matchers
  import SpanOrder
  import Traversal

  /** A row of the block, which names the block's source lines. */
  ghost predicate IsRowOf(b: ReplaceBlock, e: Emit) {
    e.Match? && !e.hidden && e.block == Some((b.first + 1, b.last + 1)) && e.replacements == None
  }

  /** Where the row starts in the rewritten text. */
  function StartOf(b: ReplaceBlock, e: Emit): int
    requires e.Match?
  {
    e.absoluteOffset + e.offsetShift - b.start
  }

  /** The row is line `k` of the rewritten text, without its terminator. */
  ghost predicate ShowsLine(b: ReplaceBlock, rows: seq<Row>, e: Emit, k: nat) {
    && IsRowOf(b, e) && k < |rows| && e.lineNumber == b.first + 1 + k
    && var s := StartOf(b, e);
       && 0 <= s == rows[k].start && s + |e.content| == rows[k].textEnd <= |b.text|
       && e.content == b.text[s..s + |e.content|]
       && s + |e.content| + e.terminatorLen == rows[k].end
  }

  /** A row of plain output: a line that marks what is replaced on it, at the column of
      the block's first match. */
  ghost predicate ShowsPlain(b: ReplaceBlock, rows: seq<Row>, e: Emit, k: nat) {
    && ShowsLine(b, rows, e, k)
    && e.lineOffset == b.start && e.columnShifts == []
    && |e.columns| == 1 && (b.reps != [] ==> e.columns[0] == b.reps[0].src.start - b.start + 1)
    && (forall p: nat | p < |e.content| :: SpanOrder.Holds(e.spans, p) <==> InReplacement(b, StartOf(b, e) + p))
    && (forall sp | sp in e.spans :: sp.start < sp.end <= |e.content|)
  }

  /** A row of `--vimgrep`: the line replacement `j` starts on. Column and shift lead to
      where it starts, and of all replacements on the line it alone is marked. */
  ghost predicate ShowsReplacement(b: ReplaceBlock, rows: seq<Row>, e: Emit, j: nat) {
    && j < |b.reps| && IsRowOf(b, e) && b.first < e.lineNumber && ShowsLine(b, rows, e, e.lineNumber - 1 - b.first)
    && var rep, s := b.reps[j], StartOf(b, e);
       && s <= rep.dst.start < s + |e.content| + e.terminatorLen
       && |e.columns| == |e.columnShifts| == 1 && e.columns[0] + e.columnShifts[0] == rep.dst.start - s + 1
       && e.lineOffset == e.absoluteOffset && e.columns[0] == Max(rep.src.start - e.absoluteOffset, 0) + 1
       && (forall p: nat | p < |e.content| :: SpanOrder.Holds(e.spans, p) <==> rep.dst.start <= s + p < rep.dst.end)
       && (forall sp | sp in e.spans :: sp.start < sp.end <= |e.content|)
  }

  /** A row of `-o`: what line `k` has of replacement `j`, at the column of its match. */
  ghost predicate ShowsPart(b: ReplaceBlock, rows: seq<Row>, e: Emit, k: nat, j: nat) {
    && IsRowOf(b, e) && k < |rows| && j < |b.reps| && e.lineNumber == b.first + 1 + k
    && var rep := b.reps[j];
       var from, to := Max(rep.dst.start, rows[k].start), Min(rep.dst.end, rows[k].textEnd);
       && 0 <= from < to <= |b.text| && e.content == b.text[from..to] && e.spans == [Span(0, to - from)]
       && e.absoluteOffset == rep.src.start && e.lineOffset == b.start && e.terminatorLen == 0
       && e.columns == [e.absoluteOffset - e.lineOffset + 1] && e.columnShifts == [e.offsetShift]
       && StartOf(b, e) == rep.dst.start
  }

  /** The row that stands in for a block without rows. */
  ghost predicate StandsIn(b: ReplaceBlock, e: Emit) {
    && e.Match? && e.hidden && e.block == Some((b.first + 1, b.last + 1)) && e.replacements == None
    && e.content == [] && e.columns == [] && e.spans == [] && e.columnShifts == []
    && e.lineNumber == b.first + 1 && e.absoluteOffset == e.lineOffset == b.start
    && e.offsetShift == 0 && e.terminatorLen == 0
  }

  // ---------------------------------------------------------------------------
  // Plain rows

  lemma {:induction false} RowSpansFit(reps: seq<Placed>, r: Row, n: nat)
    requires n <= |reps| && r.start <= r.textEnd
    ensures forall sp | sp in RowSpans(reps, r, n) :: sp.start < sp.end <= r.textEnd - r.start
  {
    if n > 0 {
      RowSpansFit(reps, r, n - 1);
    }
  }

  lemma PlainRowShows(b: ReplaceBlock, end: nat, rows: seq<Row>, k: nat)
    requires RowsOf(b, end, rows) && k < |rows|
    ensures ShowsPlain(b, rows, PlainRows(b, end, rows)[k], k)
  {
    hide AreRows, SourceAt, RowSpans, Layout, SpanOrder.Holds, InReplacement;
    var r := rows[k];
    RowBounds(b, end, rows, k);
    FirstColumnOf(b, end);
    RowSpansFit(b.reps, r, |b.reps|);
    forall p: nat | p < r.textEnd - r.start
      ensures SpanOrder.Holds(RowSpans(b.reps, r, |b.reps|), p) <==> InReplacement(b, r.start + p)
    {
      RowSpansHold(b.reps, r, |b.reps|, p);
      AllPlaced(b, r.start + p);
    }
  }

  lemma AllPlaced(b: ReplaceBlock, q: nat)
    ensures PlacedAt(b.reps, |b.reps|, q) <==> InReplacement(b, q)
  {
  }

  // ---------------------------------------------------------------------------
  // --vimgrep

  /** The first `n` replacements but those on no line. */
  ghost function OnLines(b: ReplaceBlock, rows: seq<Row>, n: nat): seq<nat>
    requires n <= |b.reps|
  {
    if n == 0 then [] else OnLines(b, rows, n - 1) + if OnNoLine(b, rows, n - 1) then [] else [n - 1]
  }

  lemma {:induction false} VimRowsShow(b: ReplaceBlock, end: nat, rows: seq<Row>, n: nat)
    requires RowsOf(b, end, rows) && n <= |b.reps|
    ensures |VimRows(b, end, rows, n)| == |OnLines(b, rows, n)|
    ensures forall i | 0 <= i < |OnLines(b, rows, n)| ::
              ShowsReplacement(b, rows, VimRows(b, end, rows, n)[i], OnLines(b, rows, n)[i])
  {
    hide AreRows, Layout, VimRow, VimLine, OnNoLine, ShowsReplacement;
    if n > 0 {
      VimRowsShow(b, end, rows, n - 1);
      VimLineNone(b, end, rows, n - 1);
      if !OnNoLine(b, rows, n - 1) {
        VimRowShows(b, end, rows, n - 1);
      }
    }
  }

  lemma VimRowShows(b: ReplaceBlock, end: nat, rows: seq<Row>, j: nat)
    requires RowsOf(b, end, rows) && j < |b.reps| && VimLine(b, rows, j).Some?
    ensures ShowsReplacement(b, rows, VimRow(b, end, rows, VimLine(b, rows, j).value, j), j)
  {
    hide AreRows, Layout, SourceAt, SpanOrder.Holds, RowAfter;
    var k := VimLine(b, rows, j).value;
    var r := rows[k];
    RowBounds(b, end, rows, k);
    VimRowPosition(b, end, rows, j);
    PieceHeld(b.reps[j], r.start, r.textEnd);
  }

  /** Marking the piece of a replacement marks what of it lies in `lo..hi`. */
  lemma PieceHeld(rep: Placed, lo: nat, hi: nat)
    requires lo <= hi
    ensures var spans: seq<Span> :=
              match PieceOf(rep, lo, hi) case None => [] case Some(p) => [Span(p.start - lo, p.end - lo)];
            && (forall p: nat | p < hi - lo :: SpanOrder.Holds(spans, p) <==> rep.dst.start <= lo + p < rep.dst.end)
            && (forall sp | sp in spans :: sp.start < sp.end <= hi - lo)
  {
    var spans: seq<Span> :=
      match PieceOf(rep, lo, hi) case None => [] case Some(p) => [Span(p.start - lo, p.end - lo)];
    assert spans != [] ==> forall p: nat :: SpanOrder.Holds(spans, p) <==> spans[0].start <= p < spans[0].end;
  }

  // ---------------------------------------------------------------------------
  // -o

  /** Line by line, and on a line in the order of the replacements. */
  ghost predicate Before(p: (nat, nat), q: (nat, nat)) {
    p.0 < q.0 || (p.0 == q.0 && p.1 < q.1)
  }

  /** `events` are the parts at `places`, each a line and a replacement, in order. */
  ghost predicate ShowsParts(b: ReplaceBlock, rows: seq<Row>, events: seq<Emit>, places: seq<(nat, nat)>) {
    && |events| == |places|
    && (forall i | 0 <= i < |places| :: ShowsPart(b, rows, events[i], places[i].0, places[i].1))
    && (forall i, j | 0 <= i < j < |places| :: Before(places[i], places[j]))
  }

  /** Some of replacement `j` is on the text of line `k`. */
  ghost predicate OnText(b: ReplaceBlock, rows: seq<Row>, k: nat, j: nat)
    requires k < |rows| && j < |b.reps|
  {
    exists p: nat :: OnBoth(rows[k], b.reps[j], p)
  }

  predicate OnBoth(r: Row, rep: Placed, p: nat) {
    r.start <= p < r.textEnd && rep.dst.start <= p < rep.dst.end
  }

  lemma PartShows(b: ReplaceBlock, end: nat, rows: seq<Row>, k: nat, j: nat)
    requires RowsOf(b, end, rows) && k < |rows| && j < |b.reps|
    ensures rows[k].start <= rows[k].textEnd <= |b.text|
    ensures PieceOf(b.reps[j], rows[k].start, rows[k].textEnd).Some? <==> OnText(b, rows, k, j)
    ensures match PieceOf(b.reps[j], rows[k].start, rows[k].textEnd)
            case None => true
            case Some(p) => p.start <= p.end <= |b.text| && ShowsPart(b, rows, OnlyRow(b, end, k, j, p), k, j)
  {
    hide AreRows, Gained;
    RowBounds(b, end, rows, k);
    assert PlacedOk(b, end, j);
    match PieceOf(b.reps[j], rows[k].start, rows[k].textEnd)
    case None =>
    case Some(p) =>
      assert OnBoth(rows[k], b.reps[j], p.start);
  }

  lemma {:induction false} PartsOfRow(b: ReplaceBlock, end: nat, rows: seq<Row>, k: nat, n: nat)
      returns (places: seq<(nat, nat)>)
    requires RowsOf(b, end, rows) && k < |rows| && n <= |b.reps|
    ensures ShowsParts(b, rows, OnlyRowsIn(b, end, rows, k, n), places)
    ensures forall p | p in places :: p.0 == k && p.1 < n
    ensures forall j: nat | j < n && OnText(b, rows, k, j) :: (k, j) in places
  {
    hide AreRows, Layout, OnlyRow, ShowsPart, OnText;
    places := [];
    if n > 0 {
      places := PartsOfRow(b, end, rows, k, n - 1);
      PartShows(b, end, rows, k, n - 1);
      if OnText(b, rows, k, n - 1) {
        PartAdded(b, rows, OnlyRowsIn(b, end, rows, k, n - 1), places,
            OnlyRow(b, end, k, n - 1, PieceOf(b.reps[n - 1], rows[k].start, rows[k].textEnd).value), k, n - 1);
        places := places + [(k, n - 1)];
      }
    }
  }

  lemma PartAdded(b: ReplaceBlock, rows: seq<Row>, events: seq<Emit>, places: seq<(nat, nat)>, e: Emit, k: nat, j: nat)
    requires ShowsParts(b, rows, events, places) && ShowsPart(b, rows, e, k, j)
    requires forall p | p in places :: Before(p, (k, j))
    ensures ShowsParts(b, rows, events + [e], places + [(k, j)])
  {
    hide ShowsPart, Before;
  }

  lemma PartsJoined(b: ReplaceBlock, rows: seq<Row>, x: seq<Emit>, px: seq<(nat, nat)>,
                    y: seq<Emit>, py: seq<(nat, nat)>)
    requires ShowsParts(b, rows, x, px) && ShowsParts(b, rows, y, py)
    requires forall p, q | p in px && q in py :: Before(p, q)
    ensures ShowsParts(b, rows, x + y, px + py)
  {
    hide ShowsPart, Before;
  }

  /** The rows of `-o` are the parts of the replacements on the lines, all of them. */
  lemma {:induction false} OnlyRowsShow(b: ReplaceBlock, end: nat, rows: seq<Row>, n: nat)
      returns (places: seq<(nat, nat)>)
    requires RowsOf(b, end, rows) && n <= |rows|
    ensures ShowsParts(b, rows, OnlyRows(b, end, rows, n), places)
    ensures forall p | p in places :: p.0 < n
    ensures forall k: nat, j: nat | k < n && j < |b.reps| && OnText(b, rows, k, j) :: (k, j) in places
  {
    hide AreRows, Layout, OnlyRowsIn, ShowsPart, OnText;
    places := [];
    if n > 0 {
      var before := OnlyRowsShow(b, end, rows, n - 1);
      var here := PartsOfRow(b, end, rows, n - 1, |b.reps|);
      PartsJoined(b, rows, OnlyRows(b, end, rows, n - 1), before, OnlyRowsIn(b, end, rows, n - 1, |b.reps|), here);
      places := before + here;
    }
  }

  // ---------------------------------------------------------------------------
  // All rows of a block

  /** The events show the block in the way asked for. */
  ghost predicate ShowsBlock(b: ReplaceBlock, opts: MatchOptions, rows: seq<Row>, events: seq<Emit>) {
    if opts.onlyMatching then
      exists places ::
        && ShowsParts(b, rows, events, places)
        && forall k: nat, j: nat | k < |rows| && j < |b.reps| && OnText(b, rows, k, j) :: (k, j) in places
    else if opts.vimgrep then
      && |events| == |OnLines(b, rows, |b.reps|)|
      && forall i | 0 <= i < |events| :: ShowsReplacement(b, rows, events[i], OnLines(b, rows, |b.reps|)[i])
    else
      |events| == |rows| && forall k | 0 <= k < |rows| :: ShowsPlain(b, rows, events[k], k)
  }

  lemma VisibleRowsShow(b: ReplaceBlock, end: nat, rows: seq<Row>, opts: MatchOptions)
    requires RowsOf(b, end, rows)
    ensures ShowsBlock(b, opts, rows, VisibleRows(b, end, rows, opts))
  {
    hide AreRows, Layout, OnlyRows, VimRows, PlainRow, ShowsPlain, ShowsReplacement, OnLines, OnText, ShowsParts;
    if opts.onlyMatching {
      var places := OnlyRowsShow(b, end, rows, |rows|);
    } else if opts.vimgrep {
      VimRowsShow(b, end, rows, |b.reps|);
    } else {
      forall k | 0 <= k < |rows|
        ensures ShowsPlain(b, rows, PlainRows(b, end, rows)[k], k)
      {
        PlainRowShows(b, end, rows, k);
      }
    }
  }

  /** The events of a block show it, or are one row that stands in for it when there is
      nothing to show. */
  lemma BlockEventsShow(b: ReplaceBlock, opts: MatchOptions, end: nat, events: seq<Emit>) returns (rows: seq<Row>)
    requires Traversal.IsBlockEvents(b, opts, end, events)
    ensures RowsOf(b, end, rows)
    ensures ShowsBlock(b, opts, rows, events)
            || (|events| == 1 && StandsIn(b, events[0]) && ShowsBlock(b, opts, rows, []))
    ensures events != []
  {
    hide AreRows, Layout, VisibleRows, ShowsBlock;
    rows :| RowsOf(b, end, rows)
      && events == if VisibleRows(b, end, rows, opts) == [] then [HiddenRow(b)] else VisibleRows(b, end, rows, opts);
    VisibleRowsShow(b, end, rows, opts);
  }
}
