/** `--json --replace`: each match's replacement beside its piece of each line. */
module ReplacementGroups {
  import opened Bytes
  import opened LineIndexing
  import opened Matchers
  import opened Rewriting
  import opened Spans
  import SpanOrder

  function SpansOf(reps: seq<Expansion>): (r: seq<Span>)
    ensures |r| == |reps| && forall k | 0 <= k < |r| :: r[k] == reps[k].at
  {
    seq(|reps|, k requires 0 <= k < |reps| => reps[k].at)
  }

  /** The texts that go with the pieces on line `li`: the expansion on the line
      its match starts on, an empty text on any line it continues onto. */
  function TextsOn(index: LineIndex, reps: seq<Expansion>, n: nat, li: nat): seq<bytes>
    requires index.Valid() && n <= |reps|
  {
    if n == 0 then []
    else
      var rep := reps[n - 1];
      TextsOn(index, reps, n - 1, li)
      + if Covers(index, rep.at, li) then [if li == FirstLine(index, rep.at) then rep.text else []] else []
  }

  /** What the hits and texts hold when the first `k` matches are done and the
      next one is done for the lines before `bound`. */
  ghost predicate SoFar(index: LineIndex, reps: seq<Expansion>, k: nat, bound: nat, hits: seq<LineHit>,
                        texts: seq<seq<bytes>>)
    requires index.Valid() && k <= |reps|
  {
    && |texts| == |hits|
    && (forall i, j | 0 <= i < j < |hits| :: hits[i].idx < hits[j].idx)
    && (forall j | 0 <= j < |hits| :: HitDone(index, reps, k, bound, hits[j], texts[j]))
    && (forall li: nat | PiecesDone(index, reps, k, bound, li) != [] :: HitOn(hits, li))
  }

  ghost predicate HitDone(index: LineIndex, reps: seq<Expansion>, k: nat, bound: nat, hit: LineHit, text: seq<bytes>)
    requires index.Valid() && k <= |reps|
  {
    && hit.spans == PiecesDone(index, reps, k, bound, hit.idx) != []
    && text == TextsDone(index, reps, k, bound, hit.idx)
  }

  function PiecesDone(index: LineIndex, reps: seq<Expansion>, k: nat, bound: nat, li: nat): seq<Span>
    requires index.Valid() && k <= |reps|
  {
    PiecesOn(index, SpansOf(reps)[..k], li)
    + if k < |reps| && Covers(index, reps[k].at, li) && li < bound then [Piece(index, reps[k].at, li)] else []
  }

  function TextsDone(index: LineIndex, reps: seq<Expansion>, k: nat, bound: nat, li: nat): seq<bytes>
    requires index.Valid() && k <= |reps|
  {
    TextsOn(index, reps, k, li)
    + if k < |reps| && Covers(index, reps[k].at, li) && li < bound
      then [if li == FirstLine(index, reps[k].at) then reps[k].text else []] else []
  }

  /** Starting the next match adds nothing yet; finishing it adds all its pieces. */
  lemma NextMatch(index: LineIndex, reps: seq<Expansion>, k: nat, bound: nat, li: nat)
    requires index.Valid() && k < |reps|
    ensures bound <= FirstLine(index, reps[k].at) ==>
              PiecesDone(index, reps, k, bound, li) == PiecesOn(index, SpansOf(reps)[..k], li)
              && TextsDone(index, reps, k, bound, li) == TextsOn(index, reps, k, li)
    ensures bound > LastPieceLine(index, reps[k].at) ==>
              PiecesDone(index, reps, k, bound, li) == PiecesOn(index, SpansOf(reps)[..k + 1], li)
              && TextsDone(index, reps, k, bound, li) == TextsOn(index, reps, k + 1, li)
  {
    hide Piece;
    PiecesSnoc(index, SpansOf(reps), k);
  }

  lemma {:induction false} TextsMatchPieces(index: LineIndex, reps: seq<Expansion>, n: nat, li: nat)
    requires index.Valid() && n <= |reps|
    ensures |TextsOn(index, reps, n, li)| == |PiecesOn(index, SpansOf(reps)[..n], li)|
  {
    if n > 0 {
      hide Covers, Piece;
      TextsMatchPieces(index, reps, n - 1, li);
      PiecesSnoc(index, SpansOf(reps), n - 1);
    }
  }

  /** The text beside a match's piece is its expansion on the line the match starts on,
      and empty on any line it goes on to. */
  lemma {:induction false} TextBesidePiece(index: LineIndex, reps: seq<Expansion>, n: nat, li: nat, j: nat)
    requires index.Valid() && j < n <= |reps| && Covers(index, reps[j].at, li)
    ensures var i, pieces := |PiecesOn(index, SpansOf(reps)[..j], li)|, PiecesOn(index, SpansOf(reps)[..n], li);
            && i < |pieces| == |TextsOn(index, reps, n, li)| && pieces[i] == Piece(index, reps[j].at, li)
            && TextsOn(index, reps, n, li)[i]
               == if index.LineStart(li) <= reps[j].at.start then reps[j].text else []
    decreases n
  {
    hide Piece, IsLineTable, LineIndex.LineStart, PiecesOn, Covers;
    TextsMatchPieces(index, reps, n, li);
    TextsMatchPieces(index, reps, n - 1, li);
    PiecesSnoc(index, SpansOf(reps), n - 1);
    if j < n - 1 {
      TextBesidePiece(index, reps, n - 1, li, j);
    } else {
      StartsWhereCovered(index, reps[j].at, li);
    }
  }

  /** Of the lines a match covers, it starts on the one that starts by its start. */
  lemma StartsWhereCovered(index: LineIndex, sp: Span, li: nat)
    requires index.Valid() && Covers(index, sp, li)
    ensures index.LineStart(li) <= sp.start <==> li == FirstLine(index, sp)
  {
    hide IsLineTable;
    if index.content != [] {
      index.LineOfInverts(sp.start, FirstLine(index, sp));
      if li > FirstLine(index, sp) {
        index.LineOfInverts(sp.start, li);
      }
    }
  }

  /** Line `li` gains the piece of the match being placed; other lines gain nothing. */
  lemma DoneGrows(index: LineIndex, reps: seq<Expansion>, k: nat, li: nat, l: nat)
    requires index.Valid() && k < |reps| && Covers(index, reps[k].at, li)
    ensures PiecesDone(index, reps, k, li + 1, l)
         == PiecesDone(index, reps, k, li, l) + if l == li then [Piece(index, reps[k].at, li)] else []
    ensures TextsDone(index, reps, k, li + 1, l)
         == TextsDone(index, reps, k, li, l)
            + if l == li then [TextFor(index, reps[k], li)] else []
    ensures |TextsDone(index, reps, k, li, l)| == |PiecesDone(index, reps, k, li, l)|
  {
    hide PiecesOn, TextsOn, Piece;
    TextsMatchPieces(index, reps, k, l);
  }

  function TextFor(index: LineIndex, rep: Expansion, li: nat): bytes
    requires index.Valid()
  {
    if li == FirstLine(index, rep.at) then rep.text else []
  }

  /** A piece on the line of the last hit goes to that hit. */
  lemma PieceToLastHit(index: LineIndex, reps: seq<Expansion>, k: nat, li: nat, hits: seq<LineHit>,
                       texts: seq<seq<bytes>>)
    requires index.Valid() && k < |reps| && Covers(index, reps[k].at, li)
    requires SoFar(index, reps, k, li, hits, texts)
    requires hits != [] && hits[|hits| - 1].idx == li
    ensures var piece, text := Piece(index, reps[k].at, li), TextFor(index, reps[k], li);
            var n := |hits| - 1;
            SoFar(index, reps, k, li + 1, hits[n := LineHit(li, hits[n].spans + [piece])],
                texts[n := texts[n] + [text]])
  {
    hide PiecesDone, TextsDone, Piece, Covers, FirstLine, TextFor, HitOn, HitDone;
    var n := |hits| - 1;
    var piece, text := Piece(index, reps[k].at, li), TextFor(index, reps[k], li);
    var hits' := hits[n := LineHit(li, hits[n].spans + [piece])];
    var texts' := texts[n := texts[n] + [text]];
    HitsStayDone(index, reps, k, li, hits, texts, n);
    HitGrows(index, reps, k, li, hits[n], texts[n]);
    SameLines(hits, hits');
    LastIsOn(hits);
    forall l: nat | PiecesDone(index, reps, k, li + 1, l) != []
      ensures HitOn(hits', l)
    {
      DoneGrows(index, reps, k, li, l);
    }
  }

  /** The first `n` hits are on lines before `li` and gain nothing there. */
  lemma HitsStayDone(index: LineIndex, reps: seq<Expansion>, k: nat, li: nat, hits: seq<LineHit>,
                     texts: seq<seq<bytes>>, n: nat)
    requires index.Valid() && k < |reps| && Covers(index, reps[k].at, li)
    requires |texts| == |hits| && n <= |hits| && forall j | 0 <= j < n :: hits[j].idx != li
    requires forall j | 0 <= j < n :: HitDone(index, reps, k, li, hits[j], texts[j])
    ensures forall j | 0 <= j < n :: HitDone(index, reps, k, li + 1, hits[j], texts[j])
  {
    hide PiecesDone, TextsDone, Piece, Covers, FirstLine, TextFor;
    forall j | 0 <= j < n
      ensures HitDone(index, reps, k, li + 1, hits[j], texts[j])
    {
      DoneGrows(index, reps, k, li, hits[j].idx);
      assert HitDone(index, reps, k, li, hits[j], texts[j]);
    }
  }

  lemma HitGrows(index: LineIndex, reps: seq<Expansion>, k: nat, li: nat, hit: LineHit, text: seq<bytes>)
    requires index.Valid() && k < |reps| && Covers(index, reps[k].at, li)
    requires hit.idx == li && HitDone(index, reps, k, li, hit, text)
    ensures HitDone(index, reps, k, li + 1, LineHit(li, hit.spans + [Piece(index, reps[k].at, li)]),
                    text + [TextFor(index, reps[k], li)])
  {
    hide PiecesDone, TextsDone, Piece, Covers, FirstLine, TextFor;
    DoneGrows(index, reps, k, li, li);
  }

  lemma HitOpens(index: LineIndex, reps: seq<Expansion>, k: nat, li: nat)
    requires index.Valid() && k < |reps| && Covers(index, reps[k].at, li)
    requires PiecesDone(index, reps, k, li, li) == []
    ensures HitDone(index, reps, k, li + 1, LineHit(li, [Piece(index, reps[k].at, li)]), [TextFor(index, reps[k], li)])
  {
    hide PiecesDone, TextsDone, Piece, Covers, FirstLine, TextFor;
    DoneGrows(index, reps, k, li, li);
  }

  lemma LastIsOn(hits: seq<LineHit>)
    requires hits != []
    ensures HitOn(hits, hits[|hits| - 1].idx)
  {
  }

  /** A piece on a later line opens a new hit. */
  lemma PieceToNewHit(index: LineIndex, reps: seq<Expansion>, k: nat, li: nat, hits: seq<LineHit>,
                      texts: seq<seq<bytes>>)
    requires index.Valid() && k < |reps| && Covers(index, reps[k].at, li)
    requires SoFar(index, reps, k, li, hits, texts)
    requires hits != [] ==> hits[|hits| - 1].idx < li
    ensures SoFar(index, reps, k, li + 1, hits + [LineHit(li, [Piece(index, reps[k].at, li)])],
                  texts + [[TextFor(index, reps[k], li)]])
  {
    hide PiecesDone, TextsDone, Piece, Covers, FirstLine, TextFor, HitOn, HitDone;
    var hit := LineHit(li, [Piece(index, reps[k].at, li)]);
    HitOnSnoc(hits, hit);
    NoHitAbove(hits, li);
    HitOpens(index, reps, k, li);
    HitsStayDone(index, reps, k, li, hits, texts, |hits|);
    forall l: nat | PiecesDone(index, reps, k, li + 1, l) != []
      ensures HitOn(hits + [hit], l)
    {
      DoneGrows(index, reps, k, li, l);
    }
  }

  lemma SameLines(a: seq<LineHit>, b: seq<LineHit>)
    requires |a| == |b| && forall k | 0 <= k < |a| :: a[k].idx == b[k].idx
    ensures forall li: nat :: HitOn(a, li) <==> HitOn(b, li)
  {
    forall li: nat
      ensures HitOn(a, li) <==> HitOn(b, li)
    {
      if HitOn(a, li) {
        var k :| 0 <= k < |a| && a[k].idx == li;
        assert b[k].idx == li;
      }
      if HitOn(b, li) {
        var k :| 0 <= k < |b| && b[k].idx == li;
        assert a[k].idx == li;
      }
    }
  }

  lemma NoHitAbove(hits: seq<LineHit>, li: nat)
    requires forall i, j | 0 <= i < j < |hits| :: hits[i].idx < hits[j].idx
    requires hits != [] ==> hits[|hits| - 1].idx < li
    ensures !HitOn(hits, li)
  {
  }

  /** Group replacements by line without merging anything. For matches in order
      the lines and ranges are those of the merged groups. */
  method GroupReplacementsByLine(index: LineIndex, reps: seq<Expansion>)
      returns (hits: seq<LineHit>, texts: seq<seq<bytes>>)
    requires index.Valid() && InOrder(reps, 0, |index.content|)
    ensures IsGrouping(index, SpansOf(reps), hits)
    ensures |texts| == |hits|
    ensures forall k | 0 <= k < |hits| ::
              texts[k] == TextsOn(index, reps, |reps|, hits[k].idx) && |texts[k]| == |hits[k].spans|
  {
    hide PiecesOn, RangesOn, SoFar, Piece;
    hits, texts := [], [];
    var k := 0;
    StartGroups(index, reps);
    while k < |reps|
      invariant 0 <= k <= |reps|
      invariant SoFar(index, reps, k, 0, hits, texts)
      invariant hits != [] ==> k > 0 && hits[|hits| - 1].idx <= LastPieceLine(index, reps[k - 1].at)
    {
      var at := reps[k].at;
      var text := Some(reps[k].text);
      var first, final := FirstLine(index, at), LastPieceLine(index, at);
      if k > 0 {
        InOrderLines(index, reps[k - 1].at, at);
      }
      ShiftBound(index, reps, k, 0, first, hits, texts);
      FinalLine(index, at);
      var li := first;
      while li <= final
        invariant first <= li <= final + 1
        invariant SoFar(index, reps, k, li, hits, texts)
        invariant hits != [] ==> hits[|hits| - 1].idx <= li
        invariant li > first ==> hits != [] && hits[|hits| - 1].idx == li - 1
        invariant text == if li == first then Some(reps[k].text) else None
      {
        SameLength(index, reps, k, li, hits, texts);
        var piece := Piece(index, at, li);
        var taken: bytes := if text.Some? then text.value else [];
        text := None;
        if hits == [] || hits[|hits| - 1].idx != li {
          PieceToNewHit(index, reps, k, li, hits, texts);
          hits, texts := hits + [LineHit(li, [piece])], texts + [[taken]];
        } else {
          var n := |hits| - 1;
          PieceToLastHit(index, reps, k, li, hits, texts);
          hits, texts := hits[n := LineHit(li, hits[n].spans + [piece])], texts[n := texts[n] + [taken]];
        }
        li := li + 1;
      }
      ShiftNext(index, reps, k, li, hits, texts);
      k := k + 1;
    }
    GroupsDone(index, reps, hits, texts);
  }

  lemma StartGroups(index: LineIndex, reps: seq<Expansion>)
    requires index.Valid()
    ensures SoFar(index, reps, 0, 0, [], [])
  {
  }

  lemma SameLength(index: LineIndex, reps: seq<Expansion>, k: nat, bound: nat, hits: seq<LineHit>,
                   texts: seq<seq<bytes>>)
    requires index.Valid() && k <= |reps| && SoFar(index, reps, k, bound, hits, texts)
    ensures |texts| == |hits|
  {
  }

  lemma ShiftBound(index: LineIndex, reps: seq<Expansion>, k: nat, a: nat, b: nat, hits: seq<LineHit>,
                   texts: seq<seq<bytes>>)
    requires index.Valid() && k < |reps| && a <= FirstLine(index, reps[k].at) && b <= FirstLine(index, reps[k].at)
    requires SoFar(index, reps, k, a, hits, texts)
    ensures SoFar(index, reps, k, b, hits, texts)
  {
    hide PiecesDone, TextsDone, PiecesOn, TextsOn;
    forall li: nat
      ensures PiecesDone(index, reps, k, a, li) == PiecesDone(index, reps, k, b, li)
      ensures TextsDone(index, reps, k, a, li) == TextsDone(index, reps, k, b, li)
    {
      NextMatch(index, reps, k, a, li);
      NextMatch(index, reps, k, b, li);
    }
  }

  lemma ShiftNext(index: LineIndex, reps: seq<Expansion>, k: nat, bound: nat, hits: seq<LineHit>,
                  texts: seq<seq<bytes>>)
    requires index.Valid() && k < |reps| && bound > LastPieceLine(index, reps[k].at)
    requires SoFar(index, reps, k, bound, hits, texts)
    ensures SoFar(index, reps, k + 1, 0, hits, texts)
  {
    hide PiecesDone, TextsDone, PiecesOn, TextsOn;
    forall li: nat
      ensures PiecesDone(index, reps, k, bound, li) == PiecesDone(index, reps, k + 1, 0, li)
      ensures TextsDone(index, reps, k, bound, li) == TextsDone(index, reps, k + 1, 0, li)
    {
      NextMatch(index, reps, k, bound, li);
      NothingStarted(index, reps, k + 1, li);
    }
  }

  lemma NothingStarted(index: LineIndex, reps: seq<Expansion>, k: nat, li: nat)
    requires index.Valid() && k <= |reps|
    ensures PiecesDone(index, reps, k, 0, li) == PiecesOn(index, SpansOf(reps)[..k], li)
    ensures TextsDone(index, reps, k, 0, li) == TextsOn(index, reps, k, li)
  {
  }

  lemma FinalLine(index: LineIndex, sp: Span)
    requires index.Valid()
    ensures FirstLine(index, sp) <= LastPieceLine(index, sp)
  {
    LinesOfSpan(index, sp);
  }

  lemma InOrderLines(index: LineIndex, a: Span, b: Span)
    requires index.Valid() && a.start <= a.end <= b.start
    ensures LastPieceLine(index, a) <= FirstLine(index, b)
  {
    index.LineOfMonotone(if a.end > a.start then a.end - 1 else a.start, b.start);
  }

  /** Pieces of spans that end by `limit` end by the clipped `limit`. */
  lemma {:induction false} PiecesEndBy(index: LineIndex, spans: seq<Span>, li: nat, limit: nat)
    requires index.Valid() && forall k | 0 <= k < |spans| :: spans[k].start <= spans[k].end <= limit
    ensures forall k | 0 <= k < |PiecesOn(index, spans, li)| ::
              PiecesOn(index, spans, li)[k].end <= Clamp(limit, index.LineStart(li), index.LineEnd(li))
                  - index.LineStart(li)
  {
    if spans != [] {
      PiecesEndBy(index, spans[..|spans| - 1], li, limit);
    }
  }

  /** Pieces of spans in order are in order and apart, so merging leaves them. */
  lemma {:induction false} PiecesApart(index: LineIndex, spans: seq<Span>, li: nat, len: nat)
    requires index.Valid() && SpansInOrder(spans, len)
    ensures SpanOrder.Apart(PiecesOn(index, spans, li))
  {
    if spans != [] {
      var init, sp := spans[..|spans| - 1], spans[|spans| - 1];
      PiecesApart(index, init, li, len);
      PiecesEndBy(index, init, li, sp.start);
    }
  }

  lemma GroupsDone(index: LineIndex, reps: seq<Expansion>, hits: seq<LineHit>, texts: seq<seq<bytes>>)
    requires index.Valid() && InOrder(reps, 0, |index.content|) && SoFar(index, reps, |reps|, 0, hits, texts)
    ensures IsGrouping(index, SpansOf(reps), hits) && |texts| == |hits|
    ensures forall k | 0 <= k < |hits| ::
              texts[k] == TextsOn(index, reps, |reps|, hits[k].idx) && |texts[k]| == |hits[k].spans|
  {
    hide PiecesOn, PiecesDone, TextsDone, TextsOn;
    var spans := SpansOf(reps);
    assert spans[..|reps|] == spans;
    forall li: nat
      ensures PiecesDone(index, reps, |reps|, 0, li) == PiecesOn(index, spans, li) == RangesOn(index, spans, li)
      ensures TextsDone(index, reps, |reps|, 0, li) == TextsOn(index, reps, |reps|, li)
      ensures |TextsOn(index, reps, |reps|, li)| == |PiecesOn(index, spans, li)|
    {
      NothingStarted(index, reps, |reps|, li);
      PiecesApart(index, spans, li, |index.content|);
      SpanOrder.ApartIsFixed(PiecesOn(index, spans, li));
      TextsMatchPieces(index, reps, |reps|, li);
    }
  }
}
