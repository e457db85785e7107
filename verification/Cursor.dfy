/** Positions in a block's rewritten text: its printed rows, and the way back to
    the source. */
module Cursors {
  import opened Bytes
  import opened Blocks
  import opened LineIndexing
  import opened Rewriting
  import Utf8

  // ---------------------------------------------------------------------------
  // Rows

  /** A printed line: `start..textEnd` is its text, `textEnd..end` its terminator. */
  datatype Row = Row(start: nat, textEnd: nat, end: nat)

  function StripEnd(text: bytes, start: nat, end: nat): nat
    requires start <= end <= |text|
  {
    var e := if end > start && text[end - 1] == NL then end - 1 else end;
    if e > start && text[e - 1] == CR then e - 1 else e
  }

  ghost predicate IsRow(text: bytes, r: Row, last: bool) {
    && r.start < r.end <= |text|
    && r.textEnd == StripEnd(text, r.start, r.end)
    && (forall i | r.start <= i < r.end - 1 :: text[i] != NL)
    && (!last ==> text[r.end - 1] == NL)
  }

  /** Row `k` starts where the row before it ends. */
  predicate Adjoins(rows: seq<Row>, k: nat)
    requires 0 < k < |rows|
  {
    rows[k].start == rows[k - 1].end
  }

  /** `rows` split `text[..pos]` after every newline. */
  ghost predicate AreRows(text: bytes, rows: seq<Row>, pos: nat) {
    && pos <= |text|
    && (rows == [] <==> pos == 0)
    && (rows != [] ==> rows[0].start == 0 && rows[|rows| - 1].end == pos)
    && (forall k | 0 < k < |rows| :: Adjoins(rows, k))
    && (forall k | 0 <= k < |rows| :: IsRow(text, rows[k], rows[k].end == |text|))
  }

  /** The rewritten lines, stepped from newline to newline. An empty text has
      none, and a last line counts only if it is not empty. */
  method Lines(text: bytes) returns (rows: seq<Row>)
    ensures AreRows(text, rows, |text|)
  {
    hide IsRow, AreRows, Utf8.IndexOf;
    rows := [];
    NoRows(text);
    var pos := 0;
    while pos < |text|
      invariant pos <= |text| && AreRows(text, rows, pos)
    {
      Utf8.IndexOfMeaning(text[pos..], NL);
      var found := Utf8.IndexOf(text[pos..], NL);
      var end := if found.Some? then pos + found.value + 1 else |text|;
      NextRow(text, pos, end);
      RowsSnoc(text, rows, pos, end);
      var textEnd := end;
      if textEnd > pos && text[textEnd - 1] == NL {
        textEnd := textEnd - 1;
      }
      if textEnd > pos && text[textEnd - 1] == CR {
        textEnd := textEnd - 1;
      }
      rows := rows + [Row(pos, textEnd, end)];
      pos := end;
    }
  }

  lemma NoRows(text: bytes)
    ensures AreRows(text, [], 0)
  {
  }

  lemma RowsSnoc(text: bytes, rows: seq<Row>, pos: nat, end: nat)
    requires AreRows(text, rows, pos) && pos < |text| && pos < end <= |text|
    requires IsRow(text, Row(pos, StripEnd(text, pos, end), end), end == |text|)
    ensures AreRows(text, rows + [Row(pos, StripEnd(text, pos, end), end)], end)
  {
    hide IsRow;
    var more := rows + [Row(pos, StripEnd(text, pos, end), end)];
    forall k | 0 < k < |more|
      ensures Adjoins(more, k)
    {
      assert k < |rows| ==> Adjoins(rows, k);
    }
  }

  lemma NextRow(text: bytes, pos: nat, end: nat)
    requires pos < |text|
    requires match Utf8.IndexOf(text[pos..], NL)
             case None => end == |text| && NL !in text[pos..]
             case Some(i) => i < |text| - pos && end == pos + i + 1 && text[pos..][i] == NL && NL !in text[pos..][..i]
    ensures IsRow(text, Row(pos, StripEnd(text, pos, end), end), end == |text|)
  {
    var rest := text[pos..];
    forall i | pos <= i < end - 1
      ensures text[i] != NL
    {
      assert rest[i - pos] == text[i];
      if Utf8.IndexOf(rest, NL).Some? {
        assert rest[..end - 1 - pos][i - pos] == text[i];
      }
    }
  }

  /** The two line splitters agree: the rows of a text are the lines of its table,
      with the same ends and terminators. */
  lemma RowsAreLines(text: bytes, rows: seq<Row>, starts: seq<nat>)
    requires AreRows(text, rows, |text|)
    requires |starts| == |rows| && forall k | 0 <= k < |rows| :: starts[k] == rows[k].start
    ensures IsLineTable(text, starts)
    ensures var index := LineIndex(text, starts);
            forall k | 0 <= k < |rows| ::
              rows[k] == Row(index.LineStart(k), index.LineEnd(k), index.LineStart(k + 1))
  {
    hide IsLine;
    RowsAscend(text, rows);
    forall k | 0 <= k < |starts|
      ensures IsLine(text, starts, k)
    {
      RowIsLine(text, rows, starts, k);
    }
    forall k | 0 <= k < |rows|
      ensures var index := LineIndex(text, starts);
              rows[k] == Row(index.LineStart(k), index.LineEnd(k), index.LineStart(k + 1))
    {
      RowEnds(text, rows, starts, k);
    }
  }

  lemma RowIsLine(text: bytes, rows: seq<Row>, starts: seq<nat>, k: nat)
    requires AreRows(text, rows, |text|) && k < |rows|
    requires |starts| == |rows| && forall j | 0 <= j < |rows| :: starts[j] == rows[j].start
    ensures IsLine(text, starts, k)
  {
    assert IsRow(text, rows[k], rows[k].end == |text|);
    if k + 1 < |rows| {
      assert Adjoins(rows, k + 1);
      assert IsRow(text, rows[k + 1], rows[k + 1].end == |text|);
    }
  }

  lemma RowEnds(text: bytes, rows: seq<Row>, starts: seq<nat>, k: nat)
    requires AreRows(text, rows, |text|) && k < |rows|
    requires |starts| == |rows| && forall j | 0 <= j < |rows| :: starts[j] == rows[j].start
    requires IsLineTable(text, starts)
    ensures var index := LineIndex(text, starts);
            rows[k] == Row(index.LineStart(k), index.LineEnd(k), index.LineStart(k + 1))
  {
    hide IsLineTable;
    assert IsRow(text, rows[k], rows[k].end == |text|);
    assert k + 1 < |rows| ==> Adjoins(rows, k + 1);
  }

  lemma {:induction false} RowBefore(text: bytes, rows: seq<Row>, j: nat, k: nat)
    requires AreRows(text, rows, |text|) && j < k < |rows|
    ensures rows[j].end <= rows[k].start
    decreases k
  {
    assert Adjoins(rows, k);
    assert IsRow(text, rows[k - 1], rows[k - 1].end == |text|);
    if j < k - 1 {
      RowBefore(text, rows, j, k - 1);
    }
  }

  lemma RowsAscend(text: bytes, rows: seq<Row>)
    requires AreRows(text, rows, |text|)
    ensures forall j, k | 0 <= j < k < |rows| :: rows[j].end <= rows[k].start
  {
    hide AreRows;
    forall j, k | 0 <= j < k < |rows|
      ensures rows[j].end <= rows[k].start
    {
      RowBefore(text, rows, j, k);
    }
  }

  // ---------------------------------------------------------------------------
  // Where the replacements of a block lie

  /** Bytes the first `k` replacements add, less those they take away. */
  function Gained(reps: seq<Placed>, k: nat): int
    requires k <= |reps|
  {
    if k == 0 then 0 else Gained(reps, k - 1) + reps[k - 1].Delta()
  }

  /** The `k`-th replacement lands at its match's place, moved by what the
      replacements before it gained. */
  ghost predicate PlacedOk(b: ReplaceBlock, end: nat, k: nat)
    requires k < |b.reps|
  {
    var rep := b.reps[k];
    && b.start <= rep.src.start <= rep.src.end <= end
    && rep.dst.start <= rep.dst.end <= |b.text|
    && rep.dst.start == rep.src.start - b.start + Gained(b.reps, k)
  }

  ghost predicate Precedes(a: Placed, b: Placed) {
    a.src.end <= b.src.start && a.dst.end <= b.dst.start
  }

  /** Source ranges and landing places of a block's replacements, both in order. */
  ghost predicate Layout(b: ReplaceBlock, end: nat) {
    && b.start <= end
    && |b.text| == end - b.start + Gained(b.reps, |b.reps|)
    && (forall k | 0 <= k < |b.reps| :: PlacedOk(b, end, k))
    && (forall j, k | 0 <= j < k < |b.reps| :: Precedes(b.reps[j], b.reps[k]))
  }

  /** `b`'s replacements are those of `members`, where they landed. */
  ghost predicate AreLandings(content: bytes, b: ReplaceBlock, members: seq<Expansion>) {
    && InOrder(members, b.start, |content|)
    && |b.reps| == |members|
    && forall k | 0 <= k < |members| :: b.reps[k] == Placed(members[k].at, Landing(content, b.start, members, k))
  }

  lemma {:induction false} GainedIsShift(content: bytes, b: ReplaceBlock, members: seq<Expansion>, k: nat)
    requires AreLandings(content, b, members) && k <= |members|
    ensures Gained(b.reps, k) == Shift(members[..k])
  {
    if k > 0 {
      GainedIsShift(content, b, members, k - 1);
      assert members[..k][..k - 1] == members[..k - 1];
      LandingIsShifted(content, b.start, members, k - 1);
    }
  }

  lemma LandingsInOrder(content: bytes, from: nat, members: seq<Expansion>, j: nat, k: nat)
    requires InOrder(members, from, |content|) && j < k < |members|
    ensures Landing(content, from, members, j).end <= Landing(content, from, members, k).start
  {
    hide Landing, Replaced;
    ReplacedSnoc(content, from, members, j);
    ReplacedSnoc(content, from, members, k);
    assert members[..k][..j + 1] == members[..j + 1];
    ReplacedPrefix(content, from, members[..k], j + 1);
  }

  lemma LandingPlaced(content: bytes, b: ReplaceBlock, members: seq<Expansion>, end: nat, k: nat)
    requires AreLandings(content, b, members) && k < |members|
    requires InOrder(members, b.start, end) && end <= |content| && b.text == Rewrite(content, b.start, members, end)
    ensures PlacedOk(b, end, k)
  {
    hide Landing, Rewrite;
    LandingIsShifted(content, b.start, members, k);
    GainedIsShift(content, b, members, k);
    LandingHoldsText(content, b.start, members, end, k);
  }

  lemma BlockLandings(index: LineIndex, b: ReplaceBlock, members: seq<Expansion>)
    requires index.Valid() && IsBlock(index, b, members)
    ensures AreLandings(index.content, b, members)
    ensures InOrder(members, b.start, index.LineStart(b.last + 1))
    ensures b.text == Rewrite(index.content, b.start, members, index.LineStart(b.last + 1))
  {
    hide IsLineTable, Landing, Rewrite;
  }

  /** Every block has such a layout. */
  lemma BlockLayout(index: LineIndex, b: ReplaceBlock, members: seq<Expansion>)
    requires index.Valid() && IsBlock(index, b, members)
    ensures Layout(b, index.LineStart(b.last + 1))
  {
    hide IsLineTable, IsBlock, PlacedOk, Landing, Replaced;
    var content, end := index.content, index.LineStart(b.last + 1);
    BlockLandings(index, b, members);
    forall k | 0 <= k < |b.reps|
      ensures PlacedOk(b, end, k)
    {
      LandingPlaced(content, b, members, end, k);
    }
    forall j, k | 0 <= j < k < |b.reps|
      ensures Precedes(b.reps[j], b.reps[k])
    {
      LandingsInOrder(content, b.start, members, j, k);
    }
    ReplacedLength(content, b.start, members);
    GainedIsShift(content, b, members, |members|);
    assert members[..|members|] == members;
  }

  // ---------------------------------------------------------------------------
  // Back to the source

  /** The first replacement from the `n`-th on that ends after `pos`. */
  function Passed(reps: seq<Placed>, pos: nat, n: nat): (r: nat)
    requires n <= |reps|
    ensures n <= r <= |reps|
    decreases |reps| - n
  {
    if n < |reps| && reps[n].dst.end <= pos then Passed(reps, pos, n + 1) else n
  }

  /** The source offset that stands behind position `pos` of the rewritten text:
      the start of the match whose replacement holds `pos`, or else the place
      `pos` was copied from. */
  function SourceAt(b: ReplaceBlock, pos: nat): int {
    var n := Passed(b.reps, pos, 0);
    if n < |b.reps| && b.reps[n].dst.start <= pos then b.reps[n].src.start
    else b.start + pos - Gained(b.reps, n)
  }

  lemma {:induction false} PassedMeaning(reps: seq<Placed>, pos: nat, n: nat)
    requires n <= |reps| && forall k | 0 <= k < n :: reps[k].dst.end <= pos
    ensures Passed(reps, pos, n) == Passed(reps, pos, 0)
    ensures forall k | 0 <= k < Passed(reps, pos, n) :: reps[k].dst.end <= pos
    ensures Passed(reps, pos, n) < |reps| ==> pos < reps[Passed(reps, pos, n)].dst.end
    decreases |reps| - n
  {
    PassedSkips(reps, pos, n);
    if n < |reps| && reps[n].dst.end <= pos {
      PassedMeaning(reps, pos, n + 1);
    }
  }

  lemma {:induction false} PassedSkips(reps: seq<Placed>, pos: nat, n: nat)
    requires n <= |reps| && forall k | 0 <= k < n :: reps[k].dst.end <= pos
    ensures Passed(reps, pos, n) == Passed(reps, pos, 0)
  {
    if n > 0 {
      PassedSkips(reps, pos, n - 1);
    }
  }

  /** A copied position lies between the replacements around it, and so does the
      source offset behind it. */
  lemma CopyBounds(b: ReplaceBlock, end: nat, pos: nat, n: nat)
    requires Layout(b, end) && n <= |b.reps|
    requires n > 0 ==> b.reps[n - 1].dst.end <= pos
    ensures var s := b.start + pos - Gained(b.reps, n);
            && b.start <= s
            && (n > 0 ==> b.reps[n - 1].src.end <= s)
            && (n < |b.reps| && pos <= b.reps[n].dst.start ==> s <= b.reps[n].src.start)
            && (n == |b.reps| && pos <= |b.text| ==> s <= end)
  {
    if n > 0 {
      assert PlacedOk(b, end, n - 1);
    }
    if n < |b.reps| {
      assert PlacedOk(b, end, n);
    }
  }

  /** Where `SourceAt` points: between the replacements around the position. */
  lemma SourceBounds(b: ReplaceBlock, end: nat, pos: nat)
    requires Layout(b, end) && pos <= |b.text|
    ensures var n, s := Passed(b.reps, pos, 0), SourceAt(b, pos);
            && b.start <= s <= end
            && (n > 0 ==> b.reps[n - 1].src.end <= s)
            && (n < |b.reps| ==> s <= b.reps[n].src.start)
  {
    var n := Passed(b.reps, pos, 0);
    PassedMeaning(b.reps, pos, 0);
    CopyBounds(b, end, pos, n);
    if n < |b.reps| {
      assert PlacedOk(b, end, n);
      assert n > 0 ==> Precedes(b.reps[n - 1], b.reps[n]);
    }
  }

  /** Replacements passed between two positions keep their source offsets apart. */
  lemma PassedBetween(b: ReplaceBlock, end: nat, m: nat, n: nat)
    requires Layout(b, end) && m < n <= |b.reps|
    ensures b.reps[m].src.start <= b.reps[n - 1].src.end
  {
    assert PlacedOk(b, end, m) && PlacedOk(b, end, n - 1);
    assert m < n - 1 ==> Precedes(b.reps[m], b.reps[n - 1]);
  }

  /** Later positions stand for later offsets. */
  lemma SourceMonotone(b: ReplaceBlock, end: nat, p: nat, q: nat)
    requires Layout(b, end) && p <= q <= |b.text|
    ensures SourceAt(b, p) <= SourceAt(b, q)
  {
    hide Layout, Gained;
    var m, n := Passed(b.reps, p, 0), Passed(b.reps, q, 0);
    PassedMeaning(b.reps, p, 0);
    PassedMeaning(b.reps, q, m);
    SourceBounds(b, end, p);
    SourceBounds(b, end, q);
    if m < n {
      PassedBetween(b, end, m, n);
    }
  }

  ghost predicate InReplacement(b: ReplaceBlock, pos: nat) {
    exists k | 0 <= k < |b.reps| :: b.reps[k].dst.start <= pos < b.reps[k].dst.end
  }

  /** Inside a replacement the offset is the start of the match it replaced. */
  lemma SourceOfReplacement(b: ReplaceBlock, end: nat, pos: nat, k: nat)
    requires Layout(b, end) && k < |b.reps| && b.reps[k].dst.start <= pos < b.reps[k].dst.end
    ensures SourceAt(b, pos) == b.reps[k].src.start
  {
    forall j | 0 <= j < k
      ensures b.reps[j].dst.end <= pos
    {
      assert Precedes(b.reps[j], b.reps[k]);
    }
    PassedMeaning(b.reps, pos, k);
  }

  /** Anywhere else the offset is that of the very byte that was copied. */
  lemma SourceOfCopy(index: LineIndex, b: ReplaceBlock, members: seq<Expansion>, pos: nat)
    requires index.Valid() && IsBlock(index, b, members) && pos < |b.text| && !InReplacement(b, pos)
    ensures 0 <= SourceAt(b, pos) < |index.content| && b.text[pos] == index.content[SourceAt(b, pos)]
  {
    hide IsLineTable, IsBlock, Landing, Rewrite, Replaced, Gained, Shift;
    var content, end := index.content, index.LineStart(b.last + 1);
    var n := Passed(b.reps, pos, 0);
    BlockLandings(index, b, members);
    PassedMeaning(b.reps, pos, 0);
    GainedIsShift(content, b, members, n);
    ReplacedLength(content, b.start, members[..n]);
    if n > 0 {
      ReplacedSnoc(content, b.start, members, n - 1);
    } else {
      NoneReplaced(content, b.start, members);
    }
    CopiedStretch(content, b.start, members, end, n, pos);
  }

  lemma MiddleByte(a: bytes, mid: bytes, tail: bytes, whole: bytes, pos: nat)
    requires a + mid + tail <= whole && |a| <= pos < |a| + |mid|
    ensures pos < |whole| && whole[pos] == mid[pos - |a|]
  {
    assert (a + mid + tail)[pos] == mid[pos - |a|];
  }

  /** Between two replacements the rewritten text is a copy. */
  lemma CopiedStretch(content: bytes, from: nat, members: seq<Expansion>, to: nat, n: nat, pos: nat)
    requires InOrder(members, from, to) && to <= |content| && n <= |members|
    requires |Replaced(content, from, members[..n])| <= pos
    requires pos < if n < |members| then Landing(content, from, members, n).start
              else |Rewrite(content, from, members, to)|
    ensures var s := Reached(from, members[..n]) + pos - |Replaced(content, from, members[..n])|;
            && pos < |Rewrite(content, from, members, to)| && 0 <= s < |content|
            && Rewrite(content, from, members, to)[pos] == content[s]
  {
    hide Replaced;
    var done, r := Replaced(content, from, members[..n]), Reached(from, members[..n]);
    var whole := Rewrite(content, from, members, to);
    if n < |members| {
      ReplacedSnoc(content, from, members, n);
      ReplacedPrefix(content, from, members, n + 1);
      var start := members[n].at.start;
      MiddleByte(done, content[r..start], members[n].text, whole, pos);
    } else {
      assert members[..n] == members;
    }
  }

  /** The answer for `pos` once the first `n` replacements are the ones before it. */
  lemma AnswerAt(b: ReplaceBlock, pos: nat, n: nat)
    requires n <= |b.reps| && forall k | 0 <= k < n :: b.reps[k].dst.end <= pos
    requires n < |b.reps| ==> pos < b.reps[n].dst.end
    ensures SourceAt(b, pos)
         == if n < |b.reps| && b.reps[n].dst.start <= pos then b.reps[n].src.start
             else b.start + pos - Gained(b.reps, n)
  {
    hide Gained;
    PassedMeaning(b.reps, pos, n);
  }

  function SaturatingAddSigned(a: nat, d: int): nat {
    if a + d < 0 then 0 else a + d
  }

  /** Maps positions back to the source, for positions asked in increasing order.
      It keeps its place among the replacements between calls. */
  class SourceCursor {
    const block: ReplaceBlock
    var next: nat
    var shift: int
    ghost var asked: nat

    ghost predicate Valid()
      reads this
    {
      && next <= |block.reps|
      && shift == Gained(block.reps, next)
      && forall k | 0 <= k < next :: block.reps[k].dst.end <= asked
    }

    constructor (block: ReplaceBlock)
      ensures Valid() && this.block == block && asked == 0
    {
      this.block := block;
      next, shift, asked := 0, 0, 0;
    }

    /** The source offset behind `pos`, whatever positions were asked before. The
        offset lies in the block, so the addition that computes it never
        saturates. */
    method At(pos: nat, ghost end: nat) returns (source: nat)
      requires Valid() && asked <= pos && Layout(block, end) && pos <= |block.text|
      modifies this
      ensures Valid() && asked == pos
      ensures source == SourceAt(block, pos) && block.start <= source <= end
    {
      hide Layout, SourceAt, Passed;
      asked := pos;
      SourceBounds(block, end, pos);
      while next < |block.reps|
        invariant Valid() && asked == pos
        decreases |block.reps| - next
      {
        var rep := block.reps[next];
        if rep.dst.start <= pos < rep.dst.end {
          AnswerAt(block, pos, next);
          return rep.src.start;
        }
        if rep.dst.end > pos {
          break;
        }
        shift := shift + rep.Delta();
        next := next + 1;
      }
      AnswerAt(block, pos, next);
      source := SaturatingAddSigned(block.start + pos, -shift);
    }
  }
}
