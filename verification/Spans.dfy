/** From match ranges over the whole buffer to ranges on lines: the block limit,
    the per-line groups and the context window. */
module Spans {
  import opened Bytes
  import opened LineIndexing
  import opened Matchers
  import SpanOrder

  function FirstLine(index: LineIndex, sp: Span): nat
    requires index.Valid()
  {
    index.LineOf(sp.start)
  }

  /** The line of the last byte, or of the start when there is no byte. */
  function LastLine(index: LineIndex, sp: Span): nat
    requires index.Valid()
  {
    if sp.end > sp.start then index.LineOf(sp.end - 1) else index.LineOf(sp.start)
  }

  lemma LinesOfSpan(index: LineIndex, sp: Span)
    requires index.Valid()
    ensures FirstLine(index, sp) <= LastLine(index, sp)
    ensures index.content != [] ==> LastLine(index, sp) < index.LineCount()
  {
    if sp.end > sp.start {
      index.LineOfMonotone(sp.start, sp.end - 1);
    }
  }

  // ---------------------------------------------------------------------------
  // The block limit

  /** Last line covered by any of `spans`. */
  ghost function Reach(index: LineIndex, spans: seq<Span>): int
    requires index.Valid()
  {
    if spans == [] then -1
    else Max(Reach(index, spans[..|spans| - 1]), LastLine(index, spans[|spans| - 1]))
  }

  /** How many blocks of lines `spans` form: a span opens one when no span before
      it reaches its first line. */
  ghost function BlockCount(index: LineIndex, spans: seq<Span>): nat
    requires index.Valid()
  {
    if spans == [] then 0
    else
      var init, sp := spans[..|spans| - 1], spans[|spans| - 1];
      BlockCount(index, init) + if FirstLine(index, sp) > Reach(index, init) then 1 else 0
  }

  lemma {:induction false} BlockCountMonotone(index: LineIndex, spans: seq<Span>, j: nat, k: nat)
    requires index.Valid() && j <= k <= |spans|
    ensures BlockCount(index, spans[..j]) <= BlockCount(index, spans[..k])
    decreases k
  {
    if j < k {
      assert spans[..k][..k - 1] == spans[..k - 1];
      BlockCountMonotone(index, spans, j, k - 1);
    }
  }

  /** Keep the longest prefix of the spans that forms at most `max` blocks. */
  method LimitToLineBlocks(index: LineIndex, spans: seq<Span>, max: Option<nat>) returns (kept: seq<Span>)
    requires index.Valid()
    ensures kept <= spans
    ensures max == None ==> kept == spans
    ensures max.Some? ==>
              && BlockCount(index, kept) <= max.value
              && forall k | |kept| < k <= |spans| :: BlockCount(index, spans[..k]) > max.value
    ensures kept < spans ==> FirstLine(index, spans[|kept|]) > Reach(index, kept)
  {
    hide BlockCount, Reach, FirstLine, LastLine;
    if max == None {
      return spans;
    }
    NoBlocks(index);
    kept := [];
    var blocks := 0;
    var blockEnd: Option<nat> := None;
    var k := 0;
    while k < |spans|
      invariant 0 <= k <= |spans| && kept == spans[..k]
      invariant blocks == BlockCount(index, kept) <= max.value
      invariant Reach(index, kept) == if blockEnd == None then -1 else blockEnd.value
    {
      var sp := spans[k];
      var first, last := FirstLine(index, sp), LastLine(index, sp);
      LinesOfSpan(index, sp);
      BlockSnoc(index, spans, k);
      if blockEnd.Some? && first <= blockEnd.value {
        blockEnd := Some(Max(blockEnd.value, last));
      } else {
        if blocks == max.value {
          forall n | k < n <= |spans|
            ensures BlockCount(index, spans[..n]) > max.value
          {
            BlockCountMonotone(index, spans, k + 1, n);
          }
          return;
        }
        blocks := blocks + 1;
        blockEnd := Some(last);
      }
      kept := kept + [sp];
      k := k + 1;
    }
  }

  lemma NoBlocks(index: LineIndex)
    requires index.Valid()
    ensures BlockCount(index, []) == 0 && Reach(index, []) == -1
  {
  }

  lemma BlockSnoc(index: LineIndex, spans: seq<Span>, k: nat)
    requires index.Valid() && k < |spans|
    ensures Reach(index, spans[..k + 1]) == Max(Reach(index, spans[..k]), LastLine(index, spans[k]))
    ensures BlockCount(index, spans[..k + 1])
         == BlockCount(index, spans[..k]) + if FirstLine(index, spans[k]) > Reach(index, spans[..k]) then 1 else 0
  {
    assert spans[..k + 1][..k] == spans[..k];
  }

  lemma {:induction false} ReachBounds(index: LineIndex, spans: seq<Span>, k: nat)
    requires index.Valid() && k < |spans|
    ensures LastLine(index, spans[k]) <= Reach(index, spans)
  {
    if k < |spans| - 1 {
      ReachBounds(index, spans[..|spans| - 1], k);
    }
  }

  /** No line is covered by both a kept and a dropped span, as long as spans come
      in order. */
  lemma KeptAndDroppedShareNoLine(index: LineIndex, spans: seq<Span>, n: nat, i: nat, j: nat)
    requires index.Valid() && n < |spans| && i < n <= j < |spans|
    requires forall a, b | 0 <= a < b < |spans| :: spans[a].start <= spans[b].start
    requires FirstLine(index, spans[n]) > Reach(index, spans[..n])
    ensures LastLine(index, spans[i]) < FirstLine(index, spans[j]) <= LastLine(index, spans[j])
  {
    ReachBounds(index, spans[..n], i);
    index.LineOfMonotone(spans[n].start, spans[j].start);
    LinesOfSpan(index, spans[j]);
  }

  // ---------------------------------------------------------------------------
  // Ranges on lines

  /** The last line a span's pieces may go to: a span never leaves the table, but
      line 0 is used even when the table is empty. */
  function LastPieceLine(index: LineIndex, sp: Span): nat
    requires index.Valid()
  {
    Min(LastLine(index, sp), if index.LineCount() == 0 then 0 else index.LineCount() - 1)
  }

  predicate Covers(index: LineIndex, sp: Span, li: nat)
    requires index.Valid()
  {
    FirstLine(index, sp) <= li <= LastPieceLine(index, sp)
  }

  /** The part of `sp` on the text of line `li`, relative to its start. */
  function Piece(index: LineIndex, sp: Span, li: nat): Span
    requires index.Valid()
  {
    var ls, le := index.LineStart(li), index.LineEnd(li);
    Span(Clamp(sp.start, ls, le) - ls, Clamp(sp.end, ls, le) - ls)
  }

  /** The pieces of `spans` on line `li`, in the order of the spans. */
  function PiecesOn(index: LineIndex, spans: seq<Span>, li: nat): seq<Span>
    requires index.Valid()
  {
    if spans == [] then []
    else
      var init, sp := spans[..|spans| - 1], spans[|spans| - 1];
      PiecesOn(index, init, li) + PieceIn(index, sp, li)
  }

  /** The piece of `sp` on line `li`, if it has one there. */
  function PieceIn(index: LineIndex, sp: Span, li: nat): seq<Span>
    requires index.Valid()
  {
    if Covers(index, sp, li) then [Piece(index, sp, li)] else []
  }

  /** The ranges reported on line `li`: its pieces, sorted and merged. */
  function RangesOn(index: LineIndex, spans: seq<Span>, li: nat): seq<Span>
    requires index.Valid()
  {
    SpanOrder.Merge(SpanOrder.Sort(PiecesOn(index, spans, li)))
  }

  /** `hits` are the lines with pieces, ascending, each with its ranges. */
  ghost predicate IsGrouping(index: LineIndex, spans: seq<Span>, hits: seq<LineHit>)
    requires index.Valid()
  {
    && (forall j, k | 0 <= j < k < |hits| :: hits[j].idx < hits[k].idx)
    && (forall k | 0 <= k < |hits| ::
          PiecesOn(index, spans, hits[k].idx) != [] && hits[k].spans == RangesOn(index, spans, hits[k].idx))
    && (forall li: nat | PiecesOn(index, spans, li) != [] :: HitOn(hits, li))
  }

  function Lookup(m: map<nat, seq<Span>>, li: nat): seq<Span> {
    if li in m then m[li] else []
  }

  /** `m` holds the pieces of every line that has some. */
  ghost predicate IsPieceMap(index: LineIndex, spans: seq<Span>, m: map<nat, seq<Span>>)
    requires index.Valid()
  {
    forall li: nat :: Lookup(m, li) == PiecesOn(index, spans, li) && (li in m <==> Lookup(m, li) != [])
  }

  /** Add one span's pieces to the lines it covers. */
  method AddPieces(index: LineIndex, sp: Span, byLine: map<nat, seq<Span>>) returns (r: map<nat, seq<Span>>)
    requires index.Valid()
    requires forall li: nat :: li in byLine <==> Lookup(byLine, li) != []
    ensures forall li: nat :: li in r <==> Lookup(r, li) != []
    ensures forall li: nat :: Lookup(r, li) == Lookup(byLine, li) + PieceIn(index, sp, li)
  {
    hide Piece, FirstLine, LastPieceLine, Lookup, AddedBelow;
    r := byLine;
    var li, final := FirstLine(index, sp), LastPieceLine(index, sp);
    NothingAdded(index, sp, byLine);
    while li <= final
      invariant FirstLine(index, sp) <= li
      invariant AddedBelow(index, sp, byLine, r, li)
    {
      PieceAdded(index, sp, byLine, r, li);
      r := r[li := Lookup(r, li) + [Piece(index, sp, li)]];
      li := li + 1;
    }
    AllAdded(index, sp, byLine, r, li);
  }

  /** `r` is `byLine` with the pieces of `sp` on the lines before `bound` added. */
  ghost predicate AddedBelow(index: LineIndex, sp: Span, byLine: map<nat, seq<Span>>, r: map<nat, seq<Span>>,
                             bound: nat)
    requires index.Valid()
  {
    forall l: nat ::
      && (l in r <==> Lookup(r, l) != [])
      && Lookup(r, l) == Lookup(byLine, l) + if l < bound then PieceIn(index, sp, l) else []
  }

  lemma NothingAdded(index: LineIndex, sp: Span, byLine: map<nat, seq<Span>>)
    requires index.Valid() && forall l: nat :: l in byLine <==> Lookup(byLine, l) != []
    ensures AddedBelow(index, sp, byLine, byLine, FirstLine(index, sp))
  {
    hide Piece, FirstLine, LastPieceLine, Lookup;
  }

  lemma PieceAdded(index: LineIndex, sp: Span, byLine: map<nat, seq<Span>>, r: map<nat, seq<Span>>, li: nat)
    requires index.Valid() && AddedBelow(index, sp, byLine, r, li) && Covers(index, sp, li)
    ensures AddedBelow(index, sp, byLine, r[li := Lookup(r, li) + [Piece(index, sp, li)]], li + 1)
  {
    hide Piece, Covers;
    var m := r[li := Lookup(r, li) + [Piece(index, sp, li)]];
    forall l: nat
      ensures l in m <==> Lookup(m, l) != []
      ensures Lookup(m, l) == Lookup(byLine, l) + if l < li + 1 then PieceIn(index, sp, l) else []
    {
      assert Lookup(r, l) == Lookup(byLine, l) + if l < li then PieceIn(index, sp, l) else [];
      if l == li {
        assert Lookup(r, l) == Lookup(byLine, l);
      } else {
        assert Lookup(m, l) == Lookup(r, l);
      }
    }
  }

  lemma AllAdded(index: LineIndex, sp: Span, byLine: map<nat, seq<Span>>, r: map<nat, seq<Span>>, bound: nat)
    requires index.Valid() && AddedBelow(index, sp, byLine, r, bound) && LastPieceLine(index, sp) < bound
    ensures forall l: nat :: l in r <==> Lookup(r, l) != []
    ensures forall l: nat :: Lookup(r, l) == Lookup(byLine, l) + PieceIn(index, sp, l)
  {
    hide Piece, FirstLine, LastPieceLine, Lookup;
  }

  /** Collect the pieces of all spans by line. */
  method CollectPieces(index: LineIndex, spans: seq<Span>) returns (byLine: map<nat, seq<Span>>)
    requires index.Valid()
    ensures IsPieceMap(index, spans, byLine)
  {
    hide PiecesOn, Covers, Piece;
    byLine := map[];
    NoPieces(index);
    assert spans[..0] == [];
    var k := 0;
    while k < |spans|
      invariant 0 <= k <= |spans|
      invariant IsPieceMap(index, spans[..k], byLine)
    {
      PiecesSnoc(index, spans, k);
      byLine := AddPieces(index, spans[k], byLine);
      k := k + 1;
    }
    assert spans[..k] == spans;
  }

  /** What `hits` hold once the lines before `bound` are done. */
  ghost predicate GroupedBelow(index: LineIndex, spans: seq<Span>, hits: seq<LineHit>, bound: nat)
    requires index.Valid()
  {
    && (forall k | 0 <= k < |hits| :: hits[k].idx < bound)
    && (forall j, k | 0 <= j < k < |hits| :: hits[j].idx < hits[k].idx)
    && (forall k | 0 <= k < |hits| ::
          PiecesOn(index, spans, hits[k].idx) != [] && hits[k].spans == RangesOn(index, spans, hits[k].idx))
    && (forall li: nat | li < bound && PiecesOn(index, spans, li) != [] :: HitOn(hits, li))
  }

  lemma GroupedSnoc(index: LineIndex, spans: seq<Span>, hits: seq<LineHit>, li: nat)
    requires index.Valid() && GroupedBelow(index, spans, hits, li)
    ensures PiecesOn(index, spans, li) == [] ==> GroupedBelow(index, spans, hits, li + 1)
    ensures PiecesOn(index, spans, li) != [] ==>
              GroupedBelow(index, spans, hits + [LineHit(li, RangesOn(index, spans, li))], li + 1)
  {
    hide PiecesOn, RangesOn;
    HitOnSnoc(hits, LineHit(li, RangesOn(index, spans, li)));
  }

  /** Clip spans onto the lines they cover: collect the pieces by line, then sort
      and merge each line's pieces, lines in ascending order. */
  method GroupSpansByLine(index: LineIndex, spans: seq<Span>) returns (hits: seq<LineHit>)
    requires index.Valid()
    ensures IsGrouping(index, spans, hits)
  {
    hide PiecesOn;
    var byLine := CollectPieces(index, spans);
    hits := [];
    var li, bound := 0, Max(1, index.LineCount());
    while li < bound
      invariant 0 <= li <= bound
      invariant GroupedBelow(index, spans, hits, li)
    {
      GroupedSnoc(index, spans, hits, li);
      assert Lookup(byLine, li) == PiecesOn(index, spans, li);
      if li in byLine {
        var merged := SpanOrder.MergeSorted(SpanOrder.Sort(byLine[li]));
        hits := hits + [LineHit(li, merged)];
      }
      li := li + 1;
    }
    forall l: nat | PiecesOn(index, spans, l) != []
      ensures HitOn(hits, l)
    {
      PiecesInTable(index, spans, l);
    }
  }

  lemma NoPieces(index: LineIndex)
    requires index.Valid()
    ensures forall li: nat :: PiecesOn(index, [], li) == []
  {
  }

  lemma PiecesSnoc(index: LineIndex, spans: seq<Span>, k: nat)
    requires index.Valid() && k < |spans|
    ensures forall li: nat ::
              PiecesOn(index, spans[..k + 1], li)
              == PiecesOn(index, spans[..k], li) + PieceIn(index, spans[k], li)
  {
    assert spans[..k + 1][..k] == spans[..k];
  }

  /** Pieces only land on lines the table has, or on line 0 of an empty buffer. */
  lemma {:induction false} PiecesInTable(index: LineIndex, spans: seq<Span>, li: nat)
    requires index.Valid() && PiecesOn(index, spans, li) != []
    ensures li < Max(1, index.LineCount())
  {
    if !Covers(index, spans[|spans| - 1], li) {
      PiecesInTable(index, spans[..|spans| - 1], li);
    }
  }

  /** A span that starts in the buffer and is not clipped to a place before it. */
  ghost predicate SpanOk(index: LineIndex, sp: Span)
    requires index.Valid()
  {
    && sp.start <= |index.content|
    && (sp.start <= sp.end || index.LineEnd(index.LineOf(sp.start)) <= sp.end)
  }

  lemma PieceOk(index: LineIndex, sp: Span, li: nat)
    requires index.Valid() && SpanOk(index, sp) && Covers(index, sp, li)
    ensures Piece(index, sp, li).start <= Piece(index, sp, li).end <= |index.LineText(li)|
  {
    if sp.end < sp.start {
      assert li == index.LineOf(sp.start);
    }
  }

  lemma {:induction false} PiecesOk(index: LineIndex, spans: seq<Span>, li: nat)
    requires index.Valid() && forall k | 0 <= k < |spans| :: SpanOk(index, spans[k])
    ensures SpanOrder.WellFormed(PiecesOn(index, spans, li))
    ensures forall k | 0 <= k < |PiecesOn(index, spans, li)| ::
              PiecesOn(index, spans, li)[k].end <= |index.LineText(li)|
  {
    if spans != [] {
      PiecesOk(index, spans[..|spans| - 1], li);
      if Covers(index, spans[|spans| - 1], li) {
        PieceOk(index, spans[|spans| - 1], li);
      }
    }
  }

  /** A text position is in a piece exactly when it is in one of the spans. */
  lemma {:induction false} PiecesHold(index: LineIndex, spans: seq<Span>, li: nat, p: nat)
    requires index.Valid() && li < index.LineCount() && p < |index.LineText(li)|
    ensures SpanOrder.Holds(PiecesOn(index, spans, li), p)
       <==> SpanOrder.Holds(spans, index.LineStart(li) + p)
  {
    if spans != [] {
      var init, sp := spans[..|spans| - 1], spans[|spans| - 1];
      PiecesHold(index, init, li, p);
      SpanOrder.Snoc(spans);
      SpanOrder.HoldsSnoc(init, sp, index.LineStart(li) + p);
      PieceHolds(index, sp, li, p);
      if Covers(index, sp, li) {
        SpanOrder.HoldsSnoc(PiecesOn(index, init, li), Piece(index, sp, li), p);
      } else {
        assert PiecesOn(index, spans, li) == PiecesOn(index, init, li);
      }
    }
  }

  lemma PieceHolds(index: LineIndex, sp: Span, li: nat, p: nat)
    requires index.Valid() && li < index.LineCount() && p < |index.LineText(li)|
    ensures var x := Piece(index, sp, li);
            (Covers(index, sp, li) && x.start <= p < x.end) <==> sp.start <= index.LineStart(li) + p < sp.end
  {
    var q := index.LineStart(li) + p;
    index.LineBorders(li, q);
    if sp.start <= q < sp.end {
      index.LineOfMonotone(sp.start, q);
      index.LineOfMonotone(q, sp.end - 1);
    }
  }

  /** The reported ranges are exact: in bounds, in order, apart, and covering just
      the text positions that lie in some span. */
  lemma RangesAreExact(index: LineIndex, spans: seq<Span>, li: nat)
    requires index.Valid() && li < index.LineCount()
    requires forall k | 0 <= k < |spans| :: SpanOk(index, spans[k])
    ensures var ranges, text := RangesOn(index, spans, li), index.LineText(li);
            && SpansInOrder(ranges, |text|)
            && forall p: nat | p < |text| ::
                 SpanOrder.Holds(ranges, p) <==> SpanOrder.Holds(spans, index.LineStart(li) + p)
  {
    var pieces := PiecesOn(index, spans, li);
    var sorted := SpanOrder.Sort(pieces);
    PiecesOk(index, spans, li);
    SpanOrder.SortSorts(pieces);
    SamePositions(pieces, sorted, |index.LineText(li)|);
    SpanOrder.MergeIsExact(sorted, |index.LineText(li)|);
    forall p: nat | p < |index.LineText(li)|
      ensures SpanOrder.Holds(RangesOn(index, spans, li), p) <==> SpanOrder.Holds(spans, index.LineStart(li) + p)
    {
      PiecesHold(index, spans, li, p);
    }
  }

  lemma SamePositions(a: seq<Span>, b: seq<Span>, limit: nat)
    requires multiset(a) == multiset(b)
    requires SpanOrder.WellFormed(a) && forall k | 0 <= k < |a| :: a[k].end <= limit
    ensures SpanOrder.WellFormed(b) && forall k | 0 <= k < |b| :: b[k].end <= limit
    ensures forall p: int :: SpanOrder.Holds(a, p) <==> SpanOrder.Holds(b, p)
  {
    SameElements(a, b);
    forall p: int
      ensures SpanOrder.Holds(a, p) <==> SpanOrder.Holds(b, p)
    {
      if SpanOrder.Holds(a, p) {
        var k :| 0 <= k < |a| && a[k].start <= p < a[k].end;
        assert a[k] in b;
      }
      if SpanOrder.Holds(b, p) {
        var k :| 0 <= k < |b| && b[k].start <= p < b[k].end;
        assert b[k] in a;
      }
    }
    forall k | 0 <= k < |b|
      ensures b[k].start <= b[k].end <= limit
    {
      assert b[k] in a;
    }
  }

  lemma SameElements(a: seq<Span>, b: seq<Span>)
    requires multiset(a) == multiset(b)
    ensures forall x :: x in a <==> x in b
  {
    assert forall x :: x in a <==> x in multiset(a);
    assert forall x :: x in b <==> x in multiset(b);
  }

  // ---------------------------------------------------------------------------
  // Order of the input

  lemma {:induction false} PiecesAppend(index: LineIndex, a: seq<Span>, b: seq<Span>, li: nat)
    requires index.Valid()
    ensures PiecesOn(index, a + b, li) == PiecesOn(index, a, li) + PiecesOn(index, b, li)
  {
    hide PiecesOn, PieceIn, IsLineTable;
    if b == [] {
      NoPieces(index);
      assert a + b == a;
    } else {
      var init := b[..|b| - 1];
      PiecesAppend(index, a, init, li);
      InitOfConcat(a, b);
      LastPieces(index, a + b, li);
      LastPieces(index, b, li);
      Regroup(PiecesOn(index, a, li), PiecesOn(index, init, li), PieceIn(index, b[|b| - 1], li));
    }
  }

  lemma LastPieces(index: LineIndex, spans: seq<Span>, li: nat)
    requires index.Valid() && spans != []
    ensures PiecesOn(index, spans, li)
         == PiecesOn(index, spans[..|spans| - 1], li) + PieceIn(index, spans[|spans| - 1], li)
  {
  }

  /** Reordering the spans reorders the pieces of a line and nothing more. */
  lemma {:induction false} PiecesReorder(index: LineIndex, a: seq<Span>, b: seq<Span>, li: nat)
    requires index.Valid() && multiset(a) == multiset(b)
    ensures multiset(PiecesOn(index, a, li)) == multiset(PiecesOn(index, b, li))
  {
    hide PiecesOn;
    NoPieces(index);
    SpanOrder.SameSize(a, b);
    if a != [] {
      var x, init := a[|a| - 1], a[..|a| - 1];
      SpanOrder.Snoc(a);
      SameElements(a, b);
      assert x in a;
      var j :| 0 <= j < |b| && b[j] == x;
      var before, after := b[..j], b[j + 1..];
      assert b == before + [x] + after;
      SpanOrder.RestSame(multiset(init), multiset(before + after), x);
      PiecesReorder(index, init, before + after, li);
      PiecesAppend(index, before, after, li);
      PiecesAppend(index, before + [x], after, li);
      PiecesAppend(index, before, [x], li);
      PiecesAppend(index, init, [x], li);
      assert a == init + [x];
    }
  }

  /** The groups do not depend on the order of the spans. */
  lemma GroupingIgnoresOrder(index: LineIndex, a: seq<Span>, b: seq<Span>, hitsA: seq<LineHit>, hitsB: seq<LineHit>)
    requires index.Valid() && multiset(a) == multiset(b)
    requires IsGrouping(index, a, hitsA) && IsGrouping(index, b, hitsB)
    ensures hitsA == hitsB
  {
    forall li: nat
      ensures RangesOn(index, a, li) == RangesOn(index, b, li)
      ensures PiecesOn(index, a, li) == [] <==> PiecesOn(index, b, li) == []
    {
      PiecesReorder(index, a, b, li);
      var p, q := PiecesOn(index, a, li), PiecesOn(index, b, li);
      SpanOrder.SameSize(p, q);
      SpanOrder.SortSorts(p);
      SpanOrder.SortSorts(q);
      SpanOrder.SortedUnique(SpanOrder.Sort(p), SpanOrder.Sort(q));
    }
    SameHits(hitsA, hitsB);
  }

  /** Two lists of hits over the same lines with the same ranges are equal. */
  lemma {:induction false} SameHits(a: seq<LineHit>, b: seq<LineHit>)
    requires forall j, k | 0 <= j < k < |a| :: a[j].idx < a[k].idx
    requires forall j, k | 0 <= j < k < |b| :: b[j].idx < b[k].idx
    requires forall li: nat :: HitOn(a, li) <==> HitOn(b, li)
    requires forall j, k | 0 <= j < |a| && 0 <= k < |b| && a[j].idx == b[k].idx :: a[j].spans == b[k].spans
    ensures a == b
  {
    var x, y := seq(|a|, i requires 0 <= i < |a| => a[i].idx), seq(|b|, i requires 0 <= i < |b| => b[i].idx);
    forall li: nat
      ensures li in x <==> li in y
    {
      assert HitOn(a, li) <==> li in x by {
        assert forall i | 0 <= i < |a| :: x[i] == a[i].idx;
      }
      assert HitOn(b, li) <==> li in y by {
        assert forall i | 0 <= i < |b| :: y[i] == b[i].idx;
      }
    }
    AscendingUnique(x, y);
    forall i | 0 <= i < |a|
      ensures a[i] == b[i]
    {
      assert x[i] == y[i];
    }
  }

  // ---------------------------------------------------------------------------
  // Clipping for --vimgrep

  function ClipSpan(index: LineIndex, sp: Span): Span
    requires index.Valid()
  {
    Span(sp.start, Min(sp.end, index.LineEnd(index.LineOf(sp.start))))
  }

  /** Each span without what lies past the line of its start. */
  function ClipSpansToStartLine(index: LineIndex, spans: seq<Span>): (r: seq<Span>)
    requires index.Valid()
    ensures |r| == |spans|
    ensures forall k | 0 <= k < |r| :: r[k] == ClipSpan(index, spans[k])
  {
    seq(|spans|, k requires 0 <= k < |spans| => ClipSpan(index, spans[k]))
  }

  /** A clipped span covers its start line and no other. It is a proper range
      except when the match starts inside the line's terminator. */
  lemma ClippedStaysOnStartLine(index: LineIndex, sp: Span)
    requires index.Valid() && index.content != [] && sp.start <= sp.end <= |index.content|
    ensures forall li: nat :: Covers(index, ClipSpan(index, sp), li) <==> li == index.LineOf(sp.start)
    ensures SpanOk(index, ClipSpan(index, sp))
    ensures ClipSpan(index, sp).start <= ClipSpan(index, sp).end
       <==> sp.start <= index.LineEnd(index.LineOf(sp.start))
  {
    var li := index.LineOf(sp.start);
    var c := ClipSpan(index, sp);
    if c.end > c.start {
      index.LineBorders(li, c.end - 1);
    }
  }

  /** Ranges of clipped spans hold just the positions in a span that starts on the line. */
  lemma ClippedRanges(index: LineIndex, spans: seq<Span>, li: nat, p: nat)
    requires index.Valid() && li < index.LineCount() && p < |index.LineText(li)|
    requires forall k | 0 <= k < |spans| :: spans[k].start <= spans[k].end <= |index.content|
    ensures SpanOrder.Holds(RangesOn(index, ClipSpansToStartLine(index, spans), li), p)
       <==> exists k | 0 <= k < |spans| ::
              index.LineOf(spans[k].start) == li && spans[k].start <= index.LineStart(li) + p < spans[k].end
  {
    hide IsLineTable, RangesOn, SpanOk, Covers;
    var clipped, q := ClipSpansToStartLine(index, spans), index.LineStart(li) + p;
    forall k | 0 <= k < |spans|
      ensures SpanOk(index, clipped[k])
      ensures clipped[k].start <= q < clipped[k].end
         <==> index.LineOf(spans[k].start) == li && spans[k].start <= q < spans[k].end
    {
      ClippedStaysOnStartLine(index, spans[k]);
      ClippedHolds(index, spans[k], li, p);
    }
    RangesAreExact(index, clipped, li);
  }

  lemma ClippedHolds(index: LineIndex, sp: Span, li: nat, p: nat)
    requires index.Valid() && li < index.LineCount() && p < |index.LineText(li)|
    requires sp.start <= sp.end <= |index.content|
    ensures var c, q := ClipSpan(index, sp), index.LineStart(li) + p;
            c.start <= q < c.end <==> index.LineOf(sp.start) == li && sp.start <= q < sp.end
  {
    hide IsLineTable, LineIndex.LineOf;
    var q, l := index.LineStart(li) + p, index.LineOf(sp.start);
    index.LineBorders(li, q);
    index.LineOfInverts(sp.start, l);
    if sp.start <= q < index.LineEnd(l) {
      index.LineBorders(l, q);
    }
  }

  /** In `a\r\n` a match of the newline is clipped to end before it starts. */
  lemma ClippedInTerminator(index: LineIndex)
    requires index.Valid() && index.content == [97, CR, NL]
    ensures ClipSpan(index, Span(2, 3)) == Span(2, 1)
  {
    hide IsLineTable;
    var li := index.LineOf(2);
    index.LineOfInverts(2, li);
    index.LineShape(li);
    TableMembers(index.content, index.starts, index.starts[li]);
    if li + 1 < index.LineCount() {
      TableMembers(index.content, index.starts, index.starts[li + 1]);
    }
  }

  // ---------------------------------------------------------------------------
  // Context

  /** The lines to display around `matched`: everything within `before` and
      `after` lines of one of them. */
  method ExpandContextWindow(matched: seq<nat>, total: nat, before: nat, after: nat) returns (lines: set<nat>)
    ensures forall li: nat :: li in lines <==> InWindow(matched, total, before, after, li)
  {
    lines := {};
    var k := 0;
    while k < |matched|
      invariant 0 <= k <= |matched|
      invariant forall li: nat :: li in lines <==> InWindow(matched[..k], total, before, after, li)
    {
      var mi := matched[k];
      var j, end := Max(mi - before, 0), Min(mi + after + 1, total);
      ghost var start := j;
      ghost var old_lines := lines;
      while j < end
        invariant start <= j && (j <= end || j == start)
        invariant forall li: nat :: li in lines <==> li in old_lines || start <= li < j
      {
        lines := lines + {j};
        j := j + 1;
      }
      WindowSnoc(matched[..k], mi, total, before, after);
      assert matched[..k + 1] == matched[..k] + [mi];
      k := k + 1;
    }
    assert matched[..k] == matched;
  }

  ghost predicate InWindow(matched: seq<nat>, total: nat, before: nat, after: nat, li: nat) {
    li < total && exists k | 0 <= k < |matched| :: matched[k] - before <= li <= matched[k] + after
  }

  lemma WindowSnoc(matched: seq<nat>, mi: nat, total: nat, before: nat, after: nat)
    ensures forall li: nat ::
              InWindow(matched + [mi], total, before, after, li)
              <==> InWindow(matched, total, before, after, li) || (li < total && mi - before <= li <= mi + after)
  {
    var t := matched + [mi];
    assert t[|matched|] == mi;
    assert forall k | 0 <= k < |matched| :: t[k] == matched[k];
  }
}
