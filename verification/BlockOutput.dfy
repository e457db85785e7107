/** All the rows of a block: `--vimgrep`, `-o` and plain, and the hidden row of a
    block that prints none. */
module BlockOutput {
  import opened Bytes
  import opened Blocks
  import opened Cursors
  import opened EmitBlocks
  import opened Matchers

  // ---------------------------------------------------------------------------
  // --vimgrep

  /** The first row from the `n`-th on that ends after `pos`. */
  function RowAfter(rows: seq<Row>, pos: nat, n: nat): (k: nat)
    requires n <= |rows|
    ensures n <= k <= |rows|
    ensures forall i | n <= i < k :: rows[i].end <= pos
    ensures k < |rows| ==> pos < rows[k].end
    decreases |rows| - n
  {
    if n < |rows| && rows[n].end <= pos then RowAfter(rows, pos, n + 1) else n
  }

  /** Stepping on from a row that is not too far finds the same row. */
  lemma {:induction false} RowAfterResumes(rows: seq<Row>, pos: nat, n: nat)
    requires n <= |rows| && forall i | 0 <= i < n :: rows[i].end <= pos
    ensures RowAfter(rows, pos, n) == RowAfter(rows, pos, 0)
  {
    if n > 0 {
      RowAfterResumes(rows, pos, n - 1);
    }
  }

  /** The row a replacement is reported on: the first one it touches. It touches none
      when it is empty and stands where a row starts, see `VimLineNone`. */
  function VimLine(b: ReplaceBlock, rows: seq<Row>, j: nat): Option<nat>
    requires j < |b.reps|
  {
    var k := RowAfter(rows, b.reps[j].dst.start, 0);
    if k < |rows| && rows[k].start < b.reps[j].dst.end then Some(k) else None
  }

  function VimRow(b: ReplaceBlock, end: nat, rows: seq<Row>, k: nat, j: nat): Emit
    requires RowsOf(b, end, rows) && k < |rows| && j < |b.reps|
  {
    RowBounds(b, end, rows, k);
    var r, rep := rows[k], b.reps[j];
    var source := SourceAt(b, r.start);
    var column := Max(rep.src.start - source, 0);
    Match(b.first + 1 + k, b.text[r.start..r.textEnd], [column + 1],
          match PieceOf(rep, r.start, r.textEnd)
          case None => []
          case Some(p) => [Span(p.start - r.start, p.end - r.start)],
          source, source, [(rep.dst.start - r.start) - column], b.start + r.start - source,
          r.end - r.textEnd, Range(b), false, None)
  }

  /** The rows of the first `n` replacements. */
  function VimRows(b: ReplaceBlock, end: nat, rows: seq<Row>, n: nat): seq<Emit>
    requires RowsOf(b, end, rows) && n <= |b.reps|
  {
    if n == 0 then []
    else
      VimRows(b, end, rows, n - 1)
      + match VimLine(b, rows, n - 1) case None => [] case Some(k) => [VimRow(b, end, rows, k, n - 1)]
  }

  /** The column and its shift add up to where the replacement starts in its row,
      counted from one, and the offset and its shift to where the row starts. */
  lemma VimRowPosition(b: ReplaceBlock, end: nat, rows: seq<Row>, j: nat)
    requires RowsOf(b, end, rows) && j < |b.reps| && VimLine(b, rows, j).Some?
    ensures var k := VimLine(b, rows, j).value;
            var row := VimRow(b, end, rows, k, j);
            && rows[k].start <= b.reps[j].dst.start < rows[k].end
            && row.columns[0] + row.columnShifts[0] == b.reps[j].dst.start - rows[k].start + 1
            && row.absoluteOffset + row.offsetShift == b.start + rows[k].start
  {
    var k := VimLine(b, rows, j).value;
    RowBounds(b, end, rows, k);
    RowStartsBy(b, rows, b.reps[j].dst.start);
  }

  lemma RowStartsBy(b: ReplaceBlock, rows: seq<Row>, pos: nat)
    requires AreRows(b.text, rows, |b.text|)
    ensures RowAfter(rows, pos, 0) < |rows| ==> rows[RowAfter(rows, pos, 0)].start <= pos
  {
    var k := RowAfter(rows, pos, 0);
    if 0 < k < |rows| {
      assert Adjoins(rows, k);
    }
  }

  lemma StartsInOrder(b: ReplaceBlock, end: nat, i: nat, j: nat)
    requires Layout(b, end) && i <= j < |b.reps|
    ensures b.reps[i].dst.start <= b.reps[j].dst.start
  {
    assert PlacedOk(b, end, i);
    assert i < j ==> Precedes(b.reps[i], b.reps[j]);
  }

  /** Once a replacement lies past the last row, so do all after it. */
  lemma {:induction false} VimRowsEnd(b: ReplaceBlock, end: nat, rows: seq<Row>, j: nat, n: nat)
    requires RowsOf(b, end, rows) && j < |b.reps| && j <= n <= |b.reps|
    requires RowAfter(rows, b.reps[j].dst.start, 0) == |rows|
    ensures VimRows(b, end, rows, n) == VimRows(b, end, rows, j)
    decreases n
  {
    hide AreRows, Layout, VimRow, VimRows, VimLine, RowAfter;
    if j < n {
      VimRowsEnd(b, end, rows, j, n - 1);
      StartsInOrder(b, end, j, n - 1);
      PastRows(b, rows, j, n - 1);
      VimRowsSnoc(b, end, rows, n - 1);
    }
  }

  lemma PastRows(b: ReplaceBlock, rows: seq<Row>, i: nat, j: nat)
    requires i < |b.reps| && j < |b.reps| && b.reps[i].dst.start <= b.reps[j].dst.start
    requires RowAfter(rows, b.reps[i].dst.start, 0) == |rows|
    ensures VimLine(b, rows, j) == None
  {
    hide RowAfter;
  }

  lemma VimRowsSnoc(b: ReplaceBlock, end: nat, rows: seq<Row>, j: nat)
    requires RowsOf(b, end, rows) && j < |b.reps|
    ensures VimRows(b, end, rows, 0) == []
    ensures VimRows(b, end, rows, j + 1)
         == VimRows(b, end, rows, j)
            + match VimLine(b, rows, j) case None => [] case Some(k) => [VimRow(b, end, rows, k, j)]
  {
  }

  /** Stepping from row `k` on finds the replacement's row. */
  lemma VimLineAt(b: ReplaceBlock, rows: seq<Row>, j: nat, k: nat)
    requires j < |b.reps| && k <= |rows|
    requires forall i | 0 <= i < k :: rows[i].end <= b.reps[j].dst.start
    requires k < |rows| ==> b.reps[j].dst.start < rows[k].end
    ensures RowAfter(rows, b.reps[j].dst.start, 0) == k
    ensures VimLine(b, rows, j) == if k < |rows| && rows[k].start < b.reps[j].dst.end then Some(k) else None
  {
    RowAfterResumes(rows, b.reps[j].dst.start, k);
  }

  /** The row of one replacement, given the source offset of its line. */
  method VimEvent(b: ReplaceBlock, ghost end: nat, rows: seq<Row>, k: nat, j: nat, source: nat) returns (event: Emit)
    requires RowsOf(b, end, rows) && k < |rows| && j < |b.reps| && source == SourceAt(b, rows[k].start)
    ensures event == VimRow(b, end, rows, k, j)
  {
    hide AreRows, Layout, SourceAt;
    var r, rep := rows[k], b.reps[j];
    RowBounds(b, end, rows, k);
    var column := Max(rep.src.start - source, 0);
    var spans: seq<Span> := [];
    match PieceOf(rep, r.start, r.textEnd) {
      case None =>
      case Some(p) => spans := [Span(p.start - r.start, p.end - r.start)];
    }
    event := Match(b.first + 1 + k, b.text[r.start..r.textEnd], [column + 1], spans, source, source,
                   [(rep.dst.start - r.start) - column], b.start + r.start - source,
                   r.end - r.textEnd, Range(b), false, None);
  }

  method EmitVimgrep(b: ReplaceBlock, ghost end: nat, rows: seq<Row>) returns (events: seq<Emit>)
    requires RowsOf(b, end, rows)
    ensures events == VimRows(b, end, rows, |b.reps|)
  {
    hide AreRows, Layout, SourceAt, VimRows, VimRow, VimLine, RowAfter;
    events := [];
    var cursor := new SourceCursor(b);
    var k, j := 0, 0;
    while j < |b.reps|
      invariant 0 <= j <= |b.reps| && 0 <= k <= |rows|
      invariant j == 0 ==> events == []
      invariant j > 0 ==> events == VimRows(b, end, rows, j)
      invariant cursor.Valid() && cursor.block == b
      invariant k < |rows| ==> cursor.asked <= rows[k].start
      invariant j < |b.reps| ==> forall i | 0 <= i < k :: rows[i].end <= b.reps[j].dst.start
    {
      var rep := b.reps[j];
      ghost var k0 := k;
      while k < |rows| && rows[k].end <= rep.dst.start
        invariant k0 <= k <= |rows|
        invariant forall i | 0 <= i < k :: rows[i].end <= rep.dst.start
      {
        k := k + 1;
      }
      VimLineAt(b, rows, j, k);
      VimRowsSnoc(b, end, rows, j);
      if k == |rows| {
        VimRowsEnd(b, end, rows, j, |b.reps|);
        return;
      }
      if j + 1 < |b.reps| {
        StartsInOrder(b, end, j, j + 1);
      }
      CursorMayAsk(b, rows, k0, k);
      if rows[k].start < rep.dst.end {
        RowBounds(b, end, rows, k);
        var source := cursor.At(rows[k].start, end);
        var event := VimEvent(b, end, rows, k, j, source);
        events := events + [event];
      }
      j := j + 1;
    }
    if |b.reps| == 0 {
      NoVimRows(b, end, rows);
    }
  }

  lemma NoVimRows(b: ReplaceBlock, end: nat, rows: seq<Row>)
    requires RowsOf(b, end, rows)
    ensures VimRows(b, end, rows, 0) == []
  {
  }

  lemma CursorMayAsk(b: ReplaceBlock, rows: seq<Row>, i: nat, k: nat)
    requires AreRows(b.text, rows, |b.text|) && i <= k < |rows|
    ensures rows[i].start <= rows[k].start
  {
    RowsAscend(b.text, rows);
    assert IsRow(b.text, rows[i], rows[i].end == |b.text|);
  }

  // ---------------------------------------------------------------------------
  // The block

  /** The row that stands for a block whose rewrite printed nothing. */
  function HiddenRow(b: ReplaceBlock): Emit {
    Match(b.first + 1, [], [], [], b.start, b.start, [], 0, 0, Range(b), true, None)
  }

  function PlainRows(b: ReplaceBlock, end: nat, rows: seq<Row>): seq<Emit>
    requires RowsOf(b, end, rows)
  {
    seq(|rows|, k requires 0 <= k < |rows| => PlainRow(b, end, rows, k))
  }

  /** The rows a block prints, before the hidden row is considered. */
  function VisibleRows(b: ReplaceBlock, end: nat, rows: seq<Row>, opts: MatchOptions): seq<Emit>
    requires RowsOf(b, end, rows)
  {
    if opts.onlyMatching then OnlyRows(b, end, rows, |rows|)
    else if opts.vimgrep then VimRows(b, end, rows, |b.reps|)
    else PlainRows(b, end, rows)
  }

  method EmitBlock(b: ReplaceBlock, opts: MatchOptions, ghost end: nat)
      returns (events: seq<Emit>, ghost rows: seq<Row>)
    requires Layout(b, end)
    ensures RowsOf(b, end, rows)
    ensures events == if VisibleRows(b, end, rows, opts) == [] then [HiddenRow(b)] else VisibleRows(b, end, rows, opts)
    ensures events != []
  {
    hide AreRows, Layout, OnlyRows, VimRows, PlainRow;
    var lines := Lines(b.text);
    rows := lines;
    if opts.onlyMatching {
      events := EmitOnlyMatching(b, end, lines);
    } else if opts.vimgrep {
      events := EmitVimgrep(b, end, lines);
    } else {
      events := EmitPlain(b, end, lines);
      assert events == PlainRows(b, end, rows);
    }
    if |events| == 0 {
      events := [HiddenRow(b)];
    }
  }

  /** When the hidden row appears: in plain output only for an empty rewrite, under
      `-o` only when no replacement byte is left outside the terminators, under
      `--vimgrep` only when every replacement is on no line. */
  lemma HiddenMeaning(b: ReplaceBlock, end: nat, rows: seq<Row>, opts: MatchOptions)
    requires RowsOf(b, end, rows)
    ensures !opts.onlyMatching && !opts.vimgrep ==> (VisibleRows(b, end, rows, opts) == [] <==> b.text == [])
    ensures opts.onlyMatching ==> (VisibleRows(b, end, rows, opts) == [] <==> KeptInRows(b, end, rows, |rows|) == [])
    ensures !opts.onlyMatching && opts.vimgrep ==>
              (VisibleRows(b, end, rows, opts) == [] <==> forall j | 0 <= j < |b.reps| :: OnNoLine(b, rows, j))
  {
    hide Layout, SourceAt, VimLine, OnNoLine;
    if opts.onlyMatching {
      OnlyRowsKeep(b, end, rows, |rows|);
      OnlyRowsNonempty(b, end, rows, |rows|);
    } else if opts.vimgrep {
      VimRowsNone(b, end, rows, |b.reps|);
      forall j | 0 <= j < |b.reps|
        ensures VimLine(b, rows, j) == None <==> OnNoLine(b, rows, j)
      {
        VimLineNone(b, end, rows, j);
      }
    }
  }

  /** An empty replacement at the very start of a line, or at the end of the text. */
  ghost predicate OnNoLine(b: ReplaceBlock, rows: seq<Row>, j: nat)
    requires j < |b.reps|
  {
    var dst := b.reps[j].dst;
    dst.start == dst.end && (dst.start == |b.text| || exists k | 0 <= k < |rows| :: rows[k].start == dst.start)
  }

  /** Such a replacement, and no other, gets no row of its own. */
  lemma VimLineNone(b: ReplaceBlock, end: nat, rows: seq<Row>, j: nat)
    requires RowsOf(b, end, rows) && j < |b.reps|
    ensures VimLine(b, rows, j) == None <==> OnNoLine(b, rows, j)
  {
    hide Layout, AreRows, RowAfter;
    var dst, k := b.reps[j].dst, RowAfter(rows, b.reps[j].dst.start, 0);
    DstBounds(b, end, j);
    RowStartsBy(b, rows, dst.start);
    if k < |rows| {
      RowBounds(b, end, rows, k);
      StartsApart(b, rows, k, dst.start);
    } else {
      RowsReach(b, rows, dst.start);
    }
  }

  lemma DstBounds(b: ReplaceBlock, end: nat, j: nat)
    requires Layout(b, end) && j < |b.reps|
    ensures b.reps[j].dst.start <= b.reps[j].dst.end <= |b.text|
  {
    assert PlacedOk(b, end, j);
  }

  /** A position on row `k` starts a row only if it starts that one. */
  lemma StartsApart(b: ReplaceBlock, rows: seq<Row>, k: nat, pos: nat)
    requires AreRows(b.text, rows, |b.text|) && k < |rows| && rows[k].start <= pos < rows[k].end
    ensures forall i | 0 <= i < |rows| && rows[i].start == pos :: i == k
  {
    hide AreRows;
    RowsAscend(b.text, rows);
    forall i | 0 <= i < |rows|
      ensures rows[i].start < rows[i].end
    {
      RowNotEmpty(b, rows, i);
    }
  }

  lemma RowNotEmpty(b: ReplaceBlock, rows: seq<Row>, i: nat)
    requires AreRows(b.text, rows, |b.text|) && i < |rows|
    ensures rows[i].start < rows[i].end
  {
    assert IsRow(b.text, rows[i], rows[i].end == |b.text|);
  }

  /** A position past every row is the end of the text. */
  lemma RowsReach(b: ReplaceBlock, rows: seq<Row>, pos: nat)
    requires AreRows(b.text, rows, |b.text|) && pos <= |b.text| && RowAfter(rows, pos, 0) == |rows|
    ensures pos == |b.text|
  {
    RowsEnd(b.text, rows);
  }

  lemma {:induction false} VimRowsNone(b: ReplaceBlock, end: nat, rows: seq<Row>, n: nat)
    requires RowsOf(b, end, rows) && n <= |b.reps|
    ensures VimRows(b, end, rows, n) == [] <==> forall j | 0 <= j < n :: VimLine(b, rows, j) == None
  {
    hide AreRows, Layout, VimRow, VimLine;
    if n > 0 {
      VimRowsNone(b, end, rows, n - 1);
    }
  }

  lemma {:induction false} OnlyRowsNonempty(b: ReplaceBlock, end: nat, rows: seq<Row>, n: nat)
    requires RowsOf(b, end, rows) && n <= |rows|
    ensures OnlyRows(b, end, rows, n) == [] <==> Contents(OnlyRows(b, end, rows, n)) == []
  {
    hide AreRows, Layout, OnlyRowsIn, Contents;
    NoContents();
    if n > 0 {
      OnlyRowsNonempty(b, end, rows, n - 1);
      OnlyRowsInNonempty(b, end, rows, n - 1, |b.reps|);
      ContentsAppend(OnlyRows(b, end, rows, n - 1), OnlyRowsIn(b, end, rows, n - 1, |b.reps|));
    }
  }

  lemma {:induction false} OnlyRowsInNonempty(b: ReplaceBlock, end: nat, rows: seq<Row>, k: nat, n: nat)
    requires RowsOf(b, end, rows) && k < |rows| && n <= |b.reps|
    ensures OnlyRowsIn(b, end, rows, k, n) == [] <==> Contents(OnlyRowsIn(b, end, rows, k, n)) == []
  {
    hide AreRows, Layout, Contents, PieceOf;
    NoContents();
    if n > 0 {
      OnlyRowsInNonempty(b, end, rows, k, n - 1);
      RowBounds(b, end, rows, k);
      match PieceOf(b.reps[n - 1], rows[k].start, rows[k].textEnd)
      case None =>
        assert OnlyRowsIn(b, end, rows, k, n) == OnlyRowsIn(b, end, rows, k, n - 1);
      case Some(p) =>
        PieceInRow(b, end, rows, k, n - 1);
        var before, row := OnlyRowsIn(b, end, rows, k, n - 1), OnlyRow(b, end, k, n - 1, p);
        assert OnlyRowsIn(b, end, rows, k, n) == before + [row];
        ContentsSnoc(before, row);
    }
  }

  /** A piece of a replacement is not empty and lies on its row's text. */
  lemma PieceInRow(b: ReplaceBlock, end: nat, rows: seq<Row>, k: nat, j: nat)
    requires RowsOf(b, end, rows) && k < |rows| && j < |b.reps|
    ensures match PieceOf(b.reps[j], rows[k].start, rows[k].textEnd)
            case None => true
            case Some(p) => rows[k].start <= p.start < p.end <= rows[k].textEnd <= |b.text|
  {
    hide AreRows, Layout;
    RowBounds(b, end, rows, k);
  }
}
