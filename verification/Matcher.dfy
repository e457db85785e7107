/** The matcher of a search and the options that decide what it reports. */
module Matchers {
  import opened Bytes
  import opened Regex
  import Hir
  import Pattern

  /** The linear-time engine, or the backtracking one, of which only the spans it
      finds are known. */
  datatype Matcher =
    | Standard(re: Regex)
    | Fancy(found: bytes -> seq<Span>)
  {
    ghost predicate Valid() {
      match this
      case Standard(re) => re.Valid()
      case Fancy(found) => forall hay: bytes :: SpansInOrder(found(hay), |hay|) && EndsAscend(found(hay))
    }

    function FindSpans(hay: bytes): seq<Span>
      requires Valid()
    {
      match this
      case Standard(re) => re.Matched(hay)
      case Fancy(found) => found(hay)
    }

    function FindFirst(hay: bytes): Option<Span> {
      match this
      case Standard(re) => re.FindFirst(hay)
      case Fancy(found) => if found(hay) == [] then None else Some(found(hay)[0])
    }

    predicate IsMatch(hay: bytes) {
      match this
      case Standard(re) => re.IsMatch(hay)
      case Fancy(found) => found(hay) != []
    }

    /** Whether a match could contain a newline. The pattern is parsed again, not
        as it was compiled; the backtracking engine is never analysed. */
    predicate CanMatchNewline() {
      match this
      case Standard(re) => Hir.CanMatchNewline(Pattern.Lower(re.ast, Pattern.AnalysisFlags(re.flags)))
      case Fancy(_) => true
    }

    /** The three questions agree: a haystack matches when it has a first match,
        and that is the first of all its matches. */
    lemma FirstOfAll(hay: bytes)
      requires Valid()
      ensures IsMatch(hay) <==> FindSpans(hay) != []
      ensures FindFirst(hay) == if FindSpans(hay) == [] then None else Some(FindSpans(hay)[0])
    {
      if Standard? {
        re.MatchedEmpty(hay);
      }
    }

    lemma SpansOrdered(hay: bytes)
      requires Valid()
      ensures SpansInOrder(FindSpans(hay), |hay|) && EndsAscend(FindSpans(hay))
    {
      match this
      case Standard(re) => re.IterationInOrder(hay, 0, None);
      case Fancy(found) => assert SpansInOrder(found(hay), |hay|);
    }

    /** When the analysis says no, no reported match contains a newline. */
    lemma NewlineFreeSpans(hay: bytes)
      requires Valid() && !CanMatchNewline()
      ensures forall sp | sp in FindSpans(hay) :: sp.start <= sp.end <= |hay| && Hir.NoNewline(hay, sp.start, sp.end)
    {
      Pattern.NewlineAnalysisIgnoresFlags(re.ast, re.flags);
      re.IterationInOrder(hay, 0, None);
      forall sp | sp in FindSpans(hay)
        ensures sp.start <= sp.end <= |hay| && Hir.NoNewline(hay, sp.start, sp.end)
      {
        assert re.Reports(hay, sp);
        Hir.NewlineAnalysisSound(re.words, re.Expr(), hay, sp.start, sp.end);
      }
    }
  }

  /** Spans within `0..len`, in order, not overlapping. */
  ghost predicate SpansInOrder(spans: seq<Span>, len: nat) {
    && (forall k | 0 <= k < |spans| :: spans[k].start <= spans[k].end <= len)
    && (forall j, k | 0 <= j < k < |spans| :: spans[j].end <= spans[k].start)
  }

  /** No two spans end at the same place: an iteration drops an empty match where
      the match before it ended. */
  ghost predicate EndsAscend(spans: seq<Span>) {
    forall j, k | 0 <= j < k < |spans| :: spans[j].end < spans[k].end
  }

  datatype MatchOptions = MatchOptions(
    invertMatch: bool,
    multiline: bool,
    onlyMatching: bool,
    beforeContext: nat,
    afterContext: nat,
    maxCount: Option<nat>,
    passthru: bool,
    replace: Option<bytes>,
    stopOnNonmatch: bool,
    vimgrep: bool,
    allSpans: bool,
    replaceBlocks: bool,
    reportReplacements: bool)

  /** A selected line and the ranges to mark on its text. */
  datatype LineHit = LineHit(idx: nat, spans: seq<Span>)

  /** Some hit is on line `li`. */
  ghost predicate HitOn(hits: seq<LineHit>, li: nat) {
    exists k | 0 <= k < |hits| :: hits[k].idx == li
  }

  lemma HitOnSnoc(hits: seq<LineHit>, h: LineHit)
    ensures forall li: nat :: HitOn(hits + [h], li) <==> HitOn(hits, li) || li == h.idx
  {
    var t := hits + [h];
    assert t[|hits|] == h;
    forall li: nat
      ensures HitOn(t, li) <==> HitOn(hits, li) || li == h.idx
    {
      if HitOn(hits, li) {
        var k :| 0 <= k < |hits| && hits[k].idx == li;
        assert t[k].idx == li;
      }
    }
  }
}
