/** The rows printed for one `-U --replace` block. */
module EmitBlocks {
  import opened Bytes
  import opened Blocks
  import opened Cursors
  import SpanOrder

  /** One unit of output. */
  datatype Emit =
    | Match(
        lineNumber: nat,
        content: bytes,
        columns: seq<nat>,
        spans: seq<Span>,
        absoluteOffset: nat,
        lineOffset: nat,
        columnShifts: seq<int>,
        offsetShift: int,
        terminatorLen: nat,
        block: Option<(nat, nat)>,
        hidden: bool,
        replacements: Option<seq<bytes>>)
    | Context(lineNumber: nat, content: bytes, absoluteOffset: nat, terminatorLen: nat)

  /** The part of a replacement inside `lo..hi`, if any. */
  function PieceOf(rep: Placed, lo: nat, hi: nat): Option<Span> {
    var a, b := Max(rep.dst.start, lo), Min(rep.dst.end, hi);
    if a < b then Some(Span(a, b)) else None
  }

  function Range(b: ReplaceBlock): Option<(nat, nat)> {
    Some((b.first + 1, b.last + 1))
  }

  ghost predicate RowsOf(b: ReplaceBlock, end: nat, rows: seq<Row>) {
    && Layout(b, end)
    && AreRows(b.text, rows, |b.text|)
  }

  lemma RowBounds(b: ReplaceBlock, end: nat, rows: seq<Row>, k: nat)
    requires RowsOf(b, end, rows) && k < |rows|
    ensures rows[k].start <= rows[k].textEnd <= rows[k].end <= |b.text| && rows[k].start < rows[k].end
    ensures 0 <= SourceAt(b, rows[k].start)
  {
    assert IsRow(b.text, rows[k], rows[k].end == |b.text|);
    SourceBounds(b, end, rows[k].start);
  }

  // ---------------------------------------------------------------------------
  // Plain rows

  /** Replaced ranges of the first `n` replacements within a row's text. */
  function RowSpans(reps: seq<Placed>, r: Row, n: nat): seq<Span>
    requires n <= |reps| && r.start <= r.textEnd
  {
    if n == 0 then []
    else
      RowSpans(reps, r, n - 1)
      + match PieceOf(reps[n - 1], r.start, r.textEnd)
        case None => []
        case Some(p) => [Span(p.start - r.start, p.end - r.start)]
  }

  function FirstColumn(b: ReplaceBlock, end: nat): nat
    requires Layout(b, end)
  {
    assert b.reps != [] ==> PlacedOk(b, end, 0);
    if b.reps == [] then 1 else b.reps[0].src.start - b.start + 1
  }

  function PlainRow(b: ReplaceBlock, end: nat, rows: seq<Row>, k: nat): Emit
    requires RowsOf(b, end, rows) && k < |rows|
  {
    RowBounds(b, end, rows, k);
    var r := rows[k];
    Match(b.first + 1 + k, b.text[r.start..r.textEnd], [FirstColumn(b, end)], RowSpans(b.reps, r, |b.reps|),
          SourceAt(b, r.start), b.start, [], b.start + r.start - SourceAt(b, r.start),
          r.end - r.textEnd, Range(b), false, None)
  }

  method EmitPlain(b: ReplaceBlock, ghost end: nat, rows: seq<Row>) returns (events: seq<Emit>)
    requires RowsOf(b, end, rows)
    ensures |events| == |rows| && forall k | 0 <= k < |rows| :: events[k] == PlainRow(b, end, rows, k)
  {
    hide AreRows, SourceAt, RowSpans, Layout;
    events := [];
    var cursor := new SourceCursor(b);
    RowsAscend(b.text, rows);
    var column := 1;
    if b.reps != [] {
      FirstColumnOf(b, end);
      column := b.reps[0].src.start - b.start + 1;
    } else {
      FirstColumnOf(b, end);
    }
    var k := 0;
    while k < |rows|
      invariant 0 <= k <= |rows| && |events| == k
      invariant cursor.Valid() && cursor.block == b
      invariant cursor.asked == 0 || (k > 0 && cursor.asked == rows[k - 1].start)
      invariant forall j | 0 <= j < k :: events[j] == PlainRow(b, end, rows, j)
    {
      var r := rows[k];
      RowBounds(b, end, rows, k);
      if k > 0 {
        RowBounds(b, end, rows, k - 1);
      }
      var source := cursor.At(r.start, end);
      var spans := SpansInRow(b.reps, r);
      events := events + [Match(b.first + 1 + k, b.text[r.start..r.textEnd], [column], spans, source, b.start, [],
                                b.start + r.start - source, r.end - r.textEnd, Range(b), false, None)];
      k := k + 1;
    }
  }

  lemma FirstColumnOf(b: ReplaceBlock, end: nat)
    requires Layout(b, end)
    ensures FirstColumn(b, end) == if b.reps == [] then 1 else b.reps[0].src.start - b.start + 1
    ensures b.reps != [] ==> b.start <= b.reps[0].src.start
  {
    assert b.reps != [] ==> PlacedOk(b, end, 0);
  }

  method SpansInRow(reps: seq<Placed>, r: Row) returns (spans: seq<Span>)
    requires r.start <= r.textEnd
    ensures spans == RowSpans(reps, r, |reps|)
  {
    spans := [];
    var j := 0;
    while j < |reps|
      invariant 0 <= j <= |reps| && spans == RowSpans(reps, r, j)
    {
      match PieceOf(reps[j], r.start, r.textEnd) {
        case None =>
        case Some(p) => spans := spans + [Span(p.start - r.start, p.end - r.start)];
      }
      j := j + 1;
    }
  }

  /** Rows with their terminators, up to the `n`-th. */
  ghost function Joined(b: ReplaceBlock, end: nat, rows: seq<Row>, n: nat): bytes
    requires RowsOf(b, end, rows) && n <= |rows|
  {
    if n == 0 then []
    else
      RowBounds(b, end, rows, n - 1);
      Joined(b, end, rows, n - 1) + PlainRow(b, end, rows, n - 1).content
      + b.text[rows[n - 1].textEnd..rows[n - 1].textEnd + PlainRow(b, end, rows, n - 1).terminatorLen]
  }

  lemma RowsFollow(text: bytes, rows: seq<Row>, k: nat)
    requires AreRows(text, rows, |text|) && k < |rows|
    ensures rows[k].start == if k == 0 then 0 else rows[k - 1].end
  {
    assert k > 0 ==> Adjoins(rows, k);
  }

  lemma RowsEnd(text: bytes, rows: seq<Row>)
    requires AreRows(text, rows, |text|)
    ensures |text| == if rows == [] then 0 else rows[|rows| - 1].end
  {
  }

  /** Plain output loses and invents nothing: the printed rows, each followed by
      as many terminator bytes as it reports, are the rewritten text. */
  lemma {:induction false} PlainRowsJoin(b: ReplaceBlock, end: nat, rows: seq<Row>, n: nat)
    requires RowsOf(b, end, rows) && n <= |rows|
    ensures Joined(b, end, rows, n) == b.text[..if n == 0 then 0 else rows[n - 1].end]
    ensures n == |rows| ==> Joined(b, end, rows, n) == b.text
  {
    hide SourceAt, RowSpans, Layout, AreRows, FirstColumn;
    if n > 0 {
      PlainRowsJoin(b, end, rows, n - 1);
      var r := rows[n - 1];
      RowBounds(b, end, rows, n - 1);
      RowsFollow(b.text, rows, n - 1);
      Rejoin(b.text, r.start, r.textEnd, r.end);
    }
    if n == |rows| {
      RowsEnd(b.text, rows);
      assert b.text[..|b.text|] == b.text;
    }
  }

  /** A plain row marks exactly the text positions that lie in a replacement. */
  lemma {:induction false} RowSpansHold(reps: seq<Placed>, r: Row, n: nat, p: nat)
    requires n <= |reps| && r.start <= r.textEnd && p < r.textEnd - r.start
    ensures SpanOrder.Holds(RowSpans(reps, r, n), p) <==> PlacedAt(reps, n, r.start + p)
  {
    hide SpanOrder.Holds, PlacedAt;
    if n == 0 {
      NoSpans(reps, p, r.start + p);
    } else {
      RowSpansHold(reps, r, n - 1, p);
      PlacedAtSnoc(reps, n, r.start + p);
      match PieceOf(reps[n - 1], r.start, r.textEnd)
      case None =>
        assert RowSpans(reps, r, n) == RowSpans(reps, r, n - 1);
      case Some(piece) =>
        SpanOrder.HoldsSnoc(RowSpans(reps, r, n - 1), Span(piece.start - r.start, piece.end - r.start), p);
    }
  }

  /** One of the first `n` replacements landed on position `q`. */
  ghost predicate PlacedAt(reps: seq<Placed>, n: nat, q: nat)
    requires n <= |reps|
  {
    exists j | 0 <= j < n :: reps[j].dst.start <= q < reps[j].dst.end
  }

  lemma PlacedAtSnoc(reps: seq<Placed>, n: nat, q: nat)
    requires 0 < n <= |reps|
    ensures PlacedAt(reps, n, q) <==> PlacedAt(reps, n - 1, q) || reps[n - 1].dst.start <= q < reps[n - 1].dst.end
  {
    if PlacedAt(reps, n, q) {
      var j :| 0 <= j < n && reps[j].dst.start <= q < reps[j].dst.end;
      assert j < n - 1 ==> PlacedAt(reps, n - 1, q);
    }
  }

  lemma NoSpans(reps: seq<Placed>, p: nat, q: nat)
    ensures !SpanOrder.Holds([], p) && !PlacedAt(reps, 0, q)
  {
  }

  // ---------------------------------------------------------------------------
  // -o

  function OnlyRow(b: ReplaceBlock, end: nat, k: nat, j: nat, p: Span): Emit
    requires Layout(b, end) && j < |b.reps| && p.start <= p.end <= |b.text|
  {
    assert PlacedOk(b, end, j);
    var rep := b.reps[j];
    Match(b.first + 1 + k, b.text[p.start..p.end], [rep.src.start - b.start + 1], [Span(0, p.end - p.start)],
          rep.src.start, b.start, [Gained(b.reps, j)], Gained(b.reps, j), 0, Range(b), false, None)
  }

  /** The rows of row `k`'s first `n` replacements. */
  function OnlyRowsIn(b: ReplaceBlock, end: nat, rows: seq<Row>, k: nat, n: nat): seq<Emit>
    requires RowsOf(b, end, rows) && k < |rows| && n <= |b.reps|
  {
    if n == 0 then []
    else
      RowBounds(b, end, rows, k);
      assert PlacedOk(b, end, n - 1);
      OnlyRowsIn(b, end, rows, k, n - 1)
      + match PieceOf(b.reps[n - 1], rows[k].start, rows[k].textEnd)
        case None => []
        case Some(p) => [OnlyRow(b, end, k, n - 1, p)]
  }

  function OnlyRows(b: ReplaceBlock, end: nat, rows: seq<Row>, n: nat): seq<Emit>
    requires RowsOf(b, end, rows) && n <= |rows|
  {
    if n == 0 then [] else OnlyRows(b, end, rows, n - 1) + OnlyRowsIn(b, end, rows, n - 1, |b.reps|)
  }

  method EmitOnlyMatching(b: ReplaceBlock, ghost end: nat, rows: seq<Row>) returns (events: seq<Emit>)
    requires RowsOf(b, end, rows)
    ensures events == OnlyRows(b, end, rows, |rows|)
  {
    hide AreRows, Layout, OnlyRowsIn;
    var shifts := ShiftsOf(b.reps);
    events := [];
    var k := 0;
    while k < |rows|
      invariant 0 <= k <= |rows| && events == OnlyRows(b, end, rows, k)
    {
      var more := EmitReplacementsIn(b, end, rows, k, shifts);
      events := events + more;
      k := k + 1;
    }
  }

  method EmitReplacementsIn(b: ReplaceBlock, ghost end: nat, rows: seq<Row>, k: nat, shifts: seq<int>)
      returns (events: seq<Emit>)
    requires RowsOf(b, end, rows) && k < |rows|
    requires |shifts| == |b.reps| && forall j | 0 <= j < |b.reps| :: shifts[j] == Gained(b.reps, j)
    ensures events == OnlyRowsIn(b, end, rows, k, |b.reps|)
  {
    hide AreRows, Gained;
    events := [];
    RowBounds(b, end, rows, k);
    var j := 0;
    while j < |b.reps|
      invariant 0 <= j <= |b.reps| && events == OnlyRowsIn(b, end, rows, k, j)
    {
      var rep := b.reps[j];
      assert PlacedOk(b, end, j);
      match PieceOf(rep, rows[k].start, rows[k].textEnd) {
        case None =>
        case Some(p) =>
          events := events + [Match(b.first + 1 + k, b.text[p.start..p.end], [rep.src.start - b.start + 1],
                                    [Span(0, p.end - p.start)], rep.src.start, b.start, [shifts[j]], shifts[j],
                                    0, Range(b), false, None)];
      }
      j := j + 1;
    }
  }

  /** The bytes gained before each replacement. */
  method ShiftsOf(reps: seq<Placed>) returns (shifts: seq<int>)
    ensures |shifts| == |reps| && forall j | 0 <= j < |reps| :: shifts[j] == Gained(reps, j)
  {
    hide Placed.Delta;
    shifts := [];
    var shift, j := 0, 0;
    while j < |reps|
      invariant 0 <= j <= |reps| && |shifts| == j && shift == Gained(reps, j)
      invariant forall i | 0 <= i < j :: shifts[i] == Gained(reps, i)
    {
      shifts := shifts + [shift];
      shift := shift + reps[j].Delta();
      j := j + 1;
    }
  }

  /** Under `-o` a column plus its shift is where the replacement starts in the
      rewritten text, counted from one; so is the offset, counted from the block. */
  lemma OnlyRowPosition(b: ReplaceBlock, end: nat, k: nat, j: nat, p: Span)
    requires Layout(b, end) && j < |b.reps| && p.start <= p.end <= |b.text|
    ensures var row := OnlyRow(b, end, k, j, p);
            && row.columns[0] + row.columnShifts[0] == b.reps[j].dst.start + 1
            && row.absoluteOffset + row.offsetShift == b.start + b.reps[j].dst.start
  {
    assert PlacedOk(b, end, j);
  }

  function Contents(events: seq<Emit>): bytes {
    if events == [] then [] else Contents(events[..|events| - 1]) + events[|events| - 1].content
  }

  lemma NoContents()
    ensures Contents([]) == []
  {
  }

  lemma ContentsSnoc(events: seq<Emit>, e: Emit)
    ensures Contents(events + [e]) == Contents(events) + e.content
  {
    assert (events + [e])[..|events|] == events;
  }

  lemma {:induction false} ContentsAppend(a: seq<Emit>, b: seq<Emit>)
    ensures Contents(a + b) == Contents(a) + Contents(b)
  {
    if b == [] {
      assert a + b == a;
    } else {
      ContentsAppend(a, b[..|b| - 1]);
      InitOfConcat(a, b);
      Regroup(Contents(a), Contents(b[..|b| - 1]), b[|b| - 1].content);
    }
  }

  /** The bytes of `text[lo..hi]` that lie in a replacement, in order. */
  ghost function Kept(b: ReplaceBlock, lo: nat, hi: nat): bytes
    requires lo <= hi <= |b.text|
  {
    if lo == hi then []
    else Kept(b, lo, hi - 1) + if InReplacement(b, hi - 1) then [b.text[hi - 1]] else []
  }

  /** The replacement bytes of the first `n` rows' texts. */
  ghost function KeptInRows(b: ReplaceBlock, end: nat, rows: seq<Row>, n: nat): bytes
    requires RowsOf(b, end, rows) && n <= |rows|
  {
    if n == 0 then []
    else
      RowBounds(b, end, rows, n - 1);
      KeptInRows(b, end, rows, n - 1) + Kept(b, rows[n - 1].start, rows[n - 1].textEnd)
  }

  lemma {:induction false} KeptInside(b: ReplaceBlock, lo: nat, mid: nat, hi: nat)
    requires lo <= mid <= hi <= |b.text| && forall p | mid <= p < hi :: InReplacement(b, p)
    ensures Kept(b, lo, hi) == Kept(b, lo, mid) + b.text[mid..hi]
  {
    if mid < hi {
      KeptInside(b, lo, mid, hi - 1);
      assert b.text[mid..hi] == b.text[mid..hi - 1] + [b.text[hi - 1]];
    }
  }

  lemma {:induction false} KeptOutside(b: ReplaceBlock, lo: nat, mid: nat, hi: nat)
    requires lo <= mid <= hi <= |b.text| && forall p | mid <= p < hi :: !InReplacement(b, p)
    ensures Kept(b, lo, hi) == Kept(b, lo, mid)
  {
    if mid < hi {
      KeptOutside(b, lo, mid, hi - 1);
    }
  }

  lemma NoReplacementBetween(b: ReplaceBlock, end: nat, j: nat, p: nat)
    requires Layout(b, end) && j <= |b.reps|
    requires j > 0 ==> b.reps[j - 1].dst.end <= p
    requires j < |b.reps| ==> p < b.reps[j].dst.start
    ensures !InReplacement(b, p)
  {
    forall i | 0 <= i < |b.reps|
      ensures !(b.reps[i].dst.start <= p < b.reps[i].dst.end)
    {
      assert PlacedOk(b, end, i);
      if i < j {
        assert PlacedOk(b, end, j - 1);
        assert i < j - 1 ==> Precedes(b.reps[i], b.reps[j - 1]);
      } else {
        assert PlacedOk(b, end, j);
        assert j < i ==> Precedes(b.reps[j], b.reps[i]);
      }
    }
  }

  /** Where the first `n` replacements reach in the text, clipped to `lo..hi`. */
  function ReachIn(b: ReplaceBlock, n: nat, lo: nat, hi: nat): nat
    requires n <= |b.reps| && lo <= hi
  {
    if n == 0 then lo else Clamp(b.reps[n - 1].dst.end, lo, hi)
  }

  lemma KeptStep(b: ReplaceBlock, end: nat, n: nat, lo: nat, hi: nat)
    requires Layout(b, end) && n < |b.reps| && lo <= hi <= |b.text|
    ensures Kept(b, lo, ReachIn(b, n + 1, lo, hi))
         == Kept(b, lo, ReachIn(b, n, lo, hi))
            + match PieceOf(b.reps[n], lo, hi) case None => [] case Some(p) => b.text[p.start..p.end]
  {
    var rep := b.reps[n];
    assert PlacedOk(b, end, n);
    var from, next := ReachIn(b, n, lo, hi), ReachIn(b, n + 1, lo, hi);
    assert n > 0 ==> Precedes(b.reps[n - 1], rep);
    var start := Clamp(rep.dst.start, lo, hi);
    forall p | from <= p < start
      ensures !InReplacement(b, p)
    {
      NoReplacementBetween(b, end, n, p);
    }
    KeptOutside(b, lo, from, start);
    forall p | start <= p < next
      ensures InReplacement(b, p)
    {
      assert rep.dst.start <= p < rep.dst.end;
    }
    KeptInside(b, lo, start, next);
  }

  lemma {:induction false} OnlyRowsInKeep(b: ReplaceBlock, end: nat, rows: seq<Row>, k: nat, n: nat)
    requires RowsOf(b, end, rows) && k < |rows| && n <= |b.reps|
    ensures rows[k].start <= rows[k].textEnd <= |b.text|
    ensures Contents(OnlyRowsIn(b, end, rows, k, n))
         == Kept(b, rows[k].start, ReachIn(b, n, rows[k].start, rows[k].textEnd))
  {
    hide AreRows, Kept, Layout, Contents, ReachIn;
    RowBounds(b, end, rows, k);
    if n == 0 {
      NoContents();
      NothingKept(b, rows[k].start);
      ReachNothing(b, rows[k].start, rows[k].textEnd);
    } else {
      OnlyRowsInKeep(b, end, rows, k, n - 1);
      KeptStep(b, end, n - 1, rows[k].start, rows[k].textEnd);
      var before := OnlyRowsIn(b, end, rows, k, n - 1);
      match PieceOf(b.reps[n - 1], rows[k].start, rows[k].textEnd)
      case None =>
        assert before + [] == before;
      case Some(p) =>
        ContentsSnoc(before, OnlyRow(b, end, k, n - 1, p));
    }
  }

  lemma ReachNothing(b: ReplaceBlock, lo: nat, hi: nat)
    requires lo <= hi
    ensures ReachIn(b, 0, lo, hi) == lo
  {
  }

  lemma NothingKept(b: ReplaceBlock, p: nat)
    requires p <= |b.text|
    ensures Kept(b, p, p) == []
  {
  }

  /** `-o` emits every replacement byte outside the row terminators, each once and
      in order. */
  lemma {:induction false} OnlyRowsKeep(b: ReplaceBlock, end: nat, rows: seq<Row>, n: nat)
    requires RowsOf(b, end, rows) && n <= |rows|
    ensures Contents(OnlyRows(b, end, rows, n)) == KeptInRows(b, end, rows, n)
  {
    hide *;
    if n == 0 {
      OnlyRowsNone(b, end, rows);
    } else {
      OnlyRowsKeep(b, end, rows, n - 1);
      OnlyRowsSnoc(b, end, rows, n);
      ContentsAppend(OnlyRows(b, end, rows, n - 1), OnlyRowsIn(b, end, rows, n - 1, |b.reps|));
      OnlyRowsInKeep(b, end, rows, n - 1, |b.reps|);
      KeptInRow(b, end, rows, n);
    }
  }

  lemma OnlyRowsNone(b: ReplaceBlock, end: nat, rows: seq<Row>)
    requires RowsOf(b, end, rows)
    ensures Contents(OnlyRows(b, end, rows, 0)) == KeptInRows(b, end, rows, 0)
  {
  }

  lemma OnlyRowsSnoc(b: ReplaceBlock, end: nat, rows: seq<Row>, n: nat)
    requires RowsOf(b, end, rows) && 0 < n <= |rows|
    ensures OnlyRows(b, end, rows, n) == OnlyRows(b, end, rows, n - 1) + OnlyRowsIn(b, end, rows, n - 1, |b.reps|)
  {
  }

  lemma KeptInRow(b: ReplaceBlock, end: nat, rows: seq<Row>, n: nat)
    requires RowsOf(b, end, rows) && 0 < n <= |rows|
    ensures var r := rows[n - 1];
            && r.start <= r.textEnd <= |b.text|
            && KeptInRows(b, end, rows, n)
               == KeptInRows(b, end, rows, n - 1) + Kept(b, r.start, ReachIn(b, |b.reps|, r.start, r.textEnd))
  {
    hide AreRows, Kept, Layout;
    var r := rows[n - 1];
    RowBounds(b, end, rows, n - 1);
    KeptRest(b, end, r.start, r.textEnd);
  }

  /** Nothing after the last replacement is kept. */
  lemma KeptRest(b: ReplaceBlock, end: nat, lo: nat, hi: nat)
    requires Layout(b, end) && lo <= hi <= |b.text|
    ensures Kept(b, lo, ReachIn(b, |b.reps|, lo, hi)) == Kept(b, lo, hi)
  {
    var from := ReachIn(b, |b.reps|, lo, hi);
    forall p | from <= p < hi
      ensures !InReplacement(b, p)
    {
      NoReplacementBetween(b, end, |b.reps|, p);
    }
    KeptOutside(b, lo, from, hi);
  }
}
