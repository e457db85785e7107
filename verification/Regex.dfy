/** A compiled pattern and the iteration over its matches. */
module Regex {
  import opened Bytes
  import opened Hir
  import Pattern
  import Utf8

  /** A compiled pattern. `search(hay, from)` is the engine: it returns the
      leftmost match starting at or after `from`. Which end it prefers there is
      the engine's own choice and any choice is allowed here. */
  datatype Regex = Regex(ast: Pattern.Ast, flags: Pattern.Flags, words: WordTable,
                         search: (bytes, nat) -> Option<Span>) {
    function Text(): bytes {
      Pattern.Spell(ast)
    }

    function Expr(): Hir {
      Pattern.Lower(ast, flags)
    }

    /** `sp` is a match the engine may report. An empty match never splits a
        character. */
    ghost predicate Reports(hay: bytes, sp: Span) {
      && sp.start <= sp.end <= |hay|
      && Matches(words, Expr(), hay, sp.start, sp.end)
      && (sp.start == sp.end ==> sp.start == |hay| || !Utf8.Tail(hay[sp.start]))
    }

    ghost predicate MatchStartsAt(hay: bytes, p: nat) {
      exists e: nat :: Reports(hay, Span(p, e))
    }

    /** The engine's contract: some leftmost match, or none at all. */
    ghost predicate SearchOk(hay: bytes, from: nat) {
      match search(hay, from)
      case None => forall p: nat | from <= p :: !MatchStartsAt(hay, p)
      case Some(sp) =>
        from <= sp.start && Reports(hay, sp) && forall p: nat | from <= p < sp.start :: !MatchStartsAt(hay, p)
    }

    ghost predicate Valid() {
      && Pattern.WellSpelled(ast)
      && forall hay: bytes, from: nat :: SearchOk(hay, from)
    }

    predicate IsMatch(hay: bytes) {
      search(hay, 0).Some?
    }

    function FindFirst(hay: bytes): Option<Span> {
      search(hay, 0)
    }

    /** The next match of an iteration that stands at `from`. An empty match
        where the previous match ended is dropped and the search resumes one
        byte on. */
    function NextMatch(hay: bytes, from: nat, lastEnd: Option<nat>): Option<Span> {
      match search(hay, from)
      case None => None
      case Some(sp) =>
        if sp.start == sp.end && lastEnd == Some(sp.end) then search(hay, from + 1) else Some(sp)
    }

    lemma NextMatchOk(hay: bytes, from: nat, lastEnd: Option<nat>)
      requires Valid() && (lastEnd.Some? ==> lastEnd.value == from)
      ensures match NextMatch(hay, from, lastEnd)
              case None => forall p: nat | from < p || (p == from && lastEnd != Some(p)) :: !MatchStartsAt(hay, p)
              case Some(sp) =>
                && from <= sp.start && Reports(hay, sp)
                && (sp.end == from ==> lastEnd != Some(from))
                && forall p: nat | (from < p || (p == from && lastEnd != Some(p))) && p < sp.start ::
                    !MatchStartsAt(hay, p)
    {
      assert SearchOk(hay, from);
      assert SearchOk(hay, from + 1);
    }

    /** Every remaining match of an iteration standing at `from`. */
    function MatchesFrom(hay: bytes, from: nat, lastEnd: Option<nat>): seq<Span>
      requires Valid() && (lastEnd.Some? ==> lastEnd.value == from)
      decreases |hay| + 1 - from, if lastEnd == None then 1 else 0
    {
      NextMatchOk(hay, from, lastEnd);
      match NextMatch(hay, from, lastEnd)
      case None => []
      case Some(sp) => [sp] + MatchesFrom(hay, sp.end, Some(sp.end))
    }

    /** All non-overlapping matches in `hay`. */
    function Matched(hay: bytes): seq<Span>
      requires Valid()
    {
      MatchesFrom(hay, 0, None)
    }

    /** One step of the iteration, and that it moves on. */
    lemma IterationStep(hay: bytes, from: nat, lastEnd: Option<nat>)
      requires Valid() && (lastEnd.Some? ==> lastEnd.value == from)
      ensures match NextMatch(hay, from, lastEnd)
              case None => MatchesFrom(hay, from, lastEnd) == []
              case Some(sp) =>
                && MatchesFrom(hay, from, lastEnd) == [sp] + MatchesFrom(hay, sp.end, Some(sp.end))
                && from <= sp.start <= sp.end <= |hay| && (lastEnd.Some? ==> from < sp.end) && Reports(hay, sp)
    {
      hide Valid, NextMatch;
      NextMatchOk(hay, from, lastEnd);
    }

    /** `find_iter`, as the engine's iterator steps it. */
    method FindSpans(hay: bytes) returns (spans: seq<Span>)
      requires Valid()
      ensures spans == Matched(hay)
    {
      hide MatchesFrom, Valid, Reports;
      spans := [];
      var from, lastEnd: Option<nat> := 0, None;
      while true
        invariant lastEnd.Some? ==> lastEnd.value == from
        invariant Matched(hay) == spans + MatchesFrom(hay, from, lastEnd)
        decreases |hay| + 1 - from, if lastEnd == None then 1 else 0
      {
        IterationStep(hay, from, lastEnd);
        var m := search(hay, from);
        if m == None {
          return;
        }
        if m.value.start == m.value.end && lastEnd == Some(m.value.end) {
          m := search(hay, from + 1);
          if m == None {
            return;
          }
        }
        Regroup(spans, [m.value], MatchesFrom(hay, m.value.end, Some(m.value.end)));
        spans := spans + [m.value];
        from, lastEnd := m.value.end, Some(m.value.end);
      }
    }

    // -------------------------------------------------------------------------
    // What the iteration yields

    ghost predicate InOrder(spans: seq<Span>, from: nat, hay: bytes) {
      && (forall k | 0 <= k < |spans| :: from <= spans[k].start <= spans[k].end <= |hay|)
      && (forall j, k | 0 <= j < k < |spans| :: spans[j].end <= spans[k].start && spans[j].end < spans[k].end)
    }

    /** Matches come in order, do not overlap, no two end at the same place, and
        each is one the engine may report. */
    lemma {:induction false} IterationInOrder(hay: bytes, from: nat, lastEnd: Option<nat>)
      requires Valid() && (lastEnd.Some? ==> lastEnd.value == from)
      ensures InOrder(MatchesFrom(hay, from, lastEnd), from, hay)
      ensures forall sp | sp in MatchesFrom(hay, from, lastEnd) :: Reports(hay, sp)
      ensures lastEnd.Some? && MatchesFrom(hay, from, lastEnd) != [] ==> from < MatchesFrom(hay, from, lastEnd)[0].end
      decreases |hay| + 1 - from, if lastEnd == None then 1 else 0
    {
      NextMatchOk(hay, from, lastEnd);
      match NextMatch(hay, from, lastEnd)
      case None =>
      case Some(sp) =>
        IterationInOrder(hay, sp.end, Some(sp.end));
    }

    ghost predicate CoveredBy(spans: seq<Span>, p: nat) {
      exists k | 0 <= k < |spans| :: spans[k].start <= p <= spans[k].end
    }

    /** Covering: wherever a match can start, some yielded match reaches, ends
        included. Only the place where the previous match ended may go unseen. */
    lemma {:induction false} IterationCovers(hay: bytes, from: nat, lastEnd: Option<nat>, p: nat)
      requires Valid() && (lastEnd.Some? ==> lastEnd.value == from)
      requires MatchStartsAt(hay, p)
      requires if lastEnd == None then from <= p else from < p
      ensures CoveredBy(MatchesFrom(hay, from, lastEnd), p)
      decreases |hay| + 1 - from, if lastEnd == None then 1 else 0
    {
      NextMatchOk(hay, from, lastEnd);
      var sp := NextMatch(hay, from, lastEnd).value;
      var rest := MatchesFrom(hay, sp.end, Some(sp.end));
      var all := MatchesFrom(hay, from, lastEnd);
      assert all == [sp] + rest;
      if p <= sp.end {
        assert all[0] == sp;
      } else {
        IterationCovers(hay, sp.end, Some(sp.end), p);
        var k :| 0 <= k < |rest| && rest[k].start <= p <= rest[k].end;
        assert all[k + 1] == rest[k];
      }
    }

    /** An iteration yields nothing exactly when the expression matches nowhere. */
    lemma MatchedEmpty(hay: bytes)
      requires Valid()
      ensures Matched(hay) == [] <==> !IsMatch(hay)
      ensures IsMatch(hay) <==> exists p: nat :: MatchStartsAt(hay, p)
      ensures IsMatch(hay) ==> Matched(hay)[0] == FindFirst(hay).value
    {
      assert SearchOk(hay, 0);
      NextMatchOk(hay, 0, None);
      if IsMatch(hay) {
        var sp := search(hay, 0).value;
        assert MatchStartsAt(hay, sp.start);
      }
    }

    /** What is left of an iteration after its `k`-th match. */
    lemma {:induction false} RestAfter(hay: bytes, from: nat, lastEnd: Option<nat>, k: nat)
      requires Valid() && (lastEnd.Some? ==> lastEnd.value == from)
      requires k < |MatchesFrom(hay, from, lastEnd)|
      ensures var spans := MatchesFrom(hay, from, lastEnd);
              spans[k + 1..] == MatchesFrom(hay, spans[k].end, Some(spans[k].end))
      decreases k
    {
      hide Valid, NextMatch, MatchesFrom;
      IterationStep(hay, from, lastEnd);
      var spans := MatchesFrom(hay, from, lastEnd);
      var rest := MatchesFrom(hay, spans[0].end, Some(spans[0].end));
      assert spans[1..] == rest;
      if k > 0 {
        RestAfter(hay, spans[0].end, Some(spans[0].end), k - 1);
        assert spans[k + 1..] == rest[k..] && spans[k] == rest[k - 1];
      }
    }

    /** The first match is the one found from the start. */
    lemma MatchedStarts(hay: bytes)
      requires Valid()
      ensures match search(hay, 0)
              case None => Matched(hay) == []
              case Some(sp) => Matched(hay) != [] && Matched(hay)[0] == sp
    {
      hide Valid, MatchesFrom;
      IterationStep(hay, 0, None);
    }

    /** After a match that ends at `e` comes the one found from `e`, unless that is
        the empty match at `e`, which is dropped for the one found a byte later. An
        iteration ends only where nothing is found. */
    lemma MatchedGoesOn(hay: bytes, k: nat)
      requires Valid() && k < |Matched(hay)|
      ensures var spans, e := Matched(hay), Matched(hay)[k].end;
              match search(hay, e)
              case None => k + 1 == |spans|
              case Some(sp) =>
                if sp != Span(e, e) then k + 1 < |spans| && spans[k + 1] == sp
                else
                  match search(hay, e + 1)
                  case None => k + 1 == |spans|
                  case Some(next) => k + 1 < |spans| && spans[k + 1] == next
    {
      hide Valid, MatchesFrom;
      var spans, e := Matched(hay), Matched(hay)[k].end;
      RestAfter(hay, 0, None, k);
      IterationStep(hay, e, Some(e));
      assert SearchEnds(hay, e) by {
        FoundFrom(hay, e);
      }
      assert spans[k + 1..] != [] ==> spans[k + 1] == spans[k + 1..][0];
    }

    ghost predicate SearchEnds(hay: bytes, from: nat) {
      search(hay, from).Some? ==> from <= search(hay, from).value.start <= search(hay, from).value.end
    }

    lemma FoundFrom(hay: bytes, from: nat)
      requires Valid()
      ensures SearchEnds(hay, from)
    {
      assert SearchOk(hay, from);
    }

    /** Matches in one line are matches in the buffer, and the reverse, when the
        pattern has no anchors. */
    lemma ReportsIsLocal(buf: bytes, a: nat, b: nat, sp: Span)
      requires IsLineSlice(buf, a, b) && AnchorFree(Expr())
      requires sp.start <= sp.end <= b - a
      ensures Reports(buf[a..b], sp) <==> Reports(buf, Span(a + sp.start, a + sp.end))
    {
      MatchIsLocal(words, Expr(), buf, a, b, sp.start, sp.end);
      if sp.start == sp.end {
        if sp.start < b - a {
          assert buf[a..b][sp.start] == buf[a + sp.start];
        }
      }
    }

    // -------------------------------------------------------------------------
    // Engines that stand by their choice

    /** Which match is preferred at a place does not depend on where the search
        began, nor, without anchors, on text past the line the match lies in. */
    ghost predicate Steady() {
      && (forall hay: bytes, f: nat, g: nat :: SteadyFrom(hay, f, g))
      && (AnchorFree(Expr()) ==>
            forall buf: bytes, a: nat, b: nat, p: nat | IsLineSlice(buf, a, b) && p <= b - a ::
              SteadyCut(buf, a, b, p))
    }

    ghost predicate SteadyFrom(hay: bytes, f: nat, g: nat) {
      search(hay, f).Some? && f <= g <= search(hay, f).value.start ==> search(hay, g) == search(hay, f)
    }

    ghost predicate SteadyCut(buf: bytes, a: nat, b: nat, p: nat)
      requires a <= b <= |buf| && p <= b - a
    {
      match search(buf, a + p)
      case None => true
      case Some(sp) => a <= sp.start <= sp.end <= b ==> search(buf[a..b], p) == Some(Span(sp.start - a, sp.end - a))
    }

    /** The shortest of the leftmost matches at or after `from`. */
    ghost predicate IsShortest(hay: bytes, from: nat, sp: Span) {
      && from <= sp.start && Reports(hay, sp)
      && (forall p: nat | from <= p < sp.start :: !MatchStartsAt(hay, p))
      && (forall e: nat | e < sp.end :: !Reports(hay, Span(sp.start, e)))
    }

    ghost predicate HasShortest(hay: bytes, from: nat) {
      exists sp :: IsShortest(hay, from, sp)
    }

    /** That match, if there is one. */
    ghost function Shortest(hay: bytes, from: nat): Option<Span> {
      if HasShortest(hay, from) then
        var sp :| IsShortest(hay, from, sp);
        Some(sp)
      else None
    }

    lemma ShortestUnique(hay: bytes, from: nat, sp: Span)
      requires IsShortest(hay, from, sp)
      ensures Shortest(hay, from) == Some(sp)
    {
      assert HasShortest(hay, from);
      var other := Shortest(hay, from).value;
      assert MatchStartsAt(hay, sp.start) && MatchStartsAt(hay, other.start);
      assert sp.start == other.start;
      assert sp == Span(sp.start, sp.end) && other == Span(sp.start, other.end);
    }

    lemma {:induction false} LeastStart(hay: bytes, from: nat, p: nat) returns (q: nat)
      requires from <= p && MatchStartsAt(hay, p)
      ensures from <= q <= p && MatchStartsAt(hay, q)
      ensures forall r: nat | from <= r < q :: !MatchStartsAt(hay, r)
      decreases p - from
    {
      if from == p || MatchStartsAt(hay, from) {
        q := from;
      } else {
        q := LeastStart(hay, from + 1, p);
      }
    }

    lemma {:induction false} LeastEnd(hay: bytes, p: nat, from: nat, e: nat) returns (least: nat)
      requires from <= e && Reports(hay, Span(p, e)) && forall r: nat | r < from :: !Reports(hay, Span(p, r))
      ensures Reports(hay, Span(p, least)) && forall r: nat | r < least :: !Reports(hay, Span(p, r))
      decreases e - from
    {
      if Reports(hay, Span(p, from)) {
        least := from;
      } else {
        least := LeastEnd(hay, p, from + 1, e);
      }
    }

    /** Preferring the shortest keeps the engine's contract. */
    lemma ShortestOk(hay: bytes, from: nat)
      ensures match Shortest(hay, from)
              case None => forall p: nat | from <= p :: !MatchStartsAt(hay, p)
              case Some(sp) => IsShortest(hay, from, sp)
    {
      forall p: nat | from <= p && MatchStartsAt(hay, p)
        ensures HasShortest(hay, from)
      {
        var q := LeastStart(hay, from, p);
        var e: nat :| Reports(hay, Span(q, e));
        var least := LeastEnd(hay, q, 0, e);
        assert IsShortest(hay, from, Span(q, least));
      }
    }

    lemma ShortestSteadyFrom(hay: bytes, f: nat, g: nat)
      requires Shortest(hay, f).Some? && f <= g <= Shortest(hay, f).value.start
      ensures Shortest(hay, g) == Shortest(hay, f)
    {
      ShortestOk(hay, f);
      ShortestUnique(hay, g, Shortest(hay, f).value);
    }

    lemma ShortestSteadyCut(buf: bytes, a: nat, b: nat, p: nat)
      requires IsLineSlice(buf, a, b) && p <= b - a && AnchorFree(Expr())
      requires Shortest(buf, a + p).Some?
      ensures var sp := Shortest(buf, a + p).value;
              a <= sp.start <= sp.end <= b ==> Shortest(buf[a..b], p) == Some(Span(sp.start - a, sp.end - a))
    {
      hide Reports;
      ShortestOk(buf, a + p);
      var sp := Shortest(buf, a + p).value;
      if a <= sp.start <= sp.end <= b {
        var line, cut := buf[a..b], Span(sp.start - a, sp.end - a);
        ReportsIsLocal(buf, a, b, cut);
        forall q: nat | p <= q < cut.start
          ensures !MatchStartsAt(line, q)
        {
          StartIsLocal(buf, a, b, q);
        }
        forall e: nat | e < cut.end
          ensures !Reports(line, Span(cut.start, e))
        {
          ReportIsLocal(buf, a, b, Span(cut.start, e));
        }
        ShortestUnique(line, p, cut);
      }
    }

    lemma StartIsLocal(buf: bytes, a: nat, b: nat, q: nat)
      requires IsLineSlice(buf, a, b) && AnchorFree(Expr())
      ensures MatchStartsAt(buf[a..b], q) ==> MatchStartsAt(buf, a + q)
    {
      if MatchStartsAt(buf[a..b], q) {
        var e: nat :| Reports(buf[a..b], Span(q, e));
        ReportIsLocal(buf, a, b, Span(q, e));
      }
    }

    /** Whatever may be reported on a line may be reported there in the buffer. */
    lemma ReportIsLocal(buf: bytes, a: nat, b: nat, sp: Span)
      requires IsLineSlice(buf, a, b) && AnchorFree(Expr())
      ensures Reports(buf[a..b], sp) ==> Reports(buf, Span(a + sp.start, a + sp.end))
    {
      if Reports(buf[a..b], sp) {
        ReportsIsLocal(buf, a, b, sp);
      }
    }
  }

  /** Every well-spelled pattern has an engine that keeps the contract and stands by
      its choice: the one that prefers the shortest match. */
  lemma EngineExists(ast: Pattern.Ast, flags: Pattern.Flags, words: WordTable)
    requires Pattern.WellSpelled(ast)
    ensures exists re: Regex ::
              re.Valid() && re.Steady() && re.ast == ast && re.flags == flags && re.words == words
  {
    hide Regex.Reports, Regex.IsShortest, IsLineSlice, AnchorFree;
    var blank := Regex(ast, flags, words, (_: bytes, _: nat) => None);
    var re := blank.(search := (hay: bytes, from: nat) => blank.Shortest(hay, from));
    forall hay: bytes, from: nat
      ensures re.SearchOk(hay, from)
    {
      SameReports(blank, re, hay);
      blank.ShortestOk(hay, from);
      ShortestReports(blank, re, hay, from);
    }
    forall hay: bytes, f: nat, g: nat
      ensures re.SteadyFrom(hay, f, g)
    {
      if blank.Shortest(hay, f).Some? && f <= g <= blank.Shortest(hay, f).value.start {
        blank.ShortestSteadyFrom(hay, f, g);
      }
    }
    if AnchorFree(re.Expr()) {
      forall buf: bytes, a: nat, b: nat, p: nat | IsLineSlice(buf, a, b) && p <= b - a
        ensures a <= b <= |buf| && re.SteadyCut(buf, a, b, p)
      {
        SliceBounds(buf, a, b);
        if blank.Shortest(buf, a + p).Some? {
          blank.ShortestSteadyCut(buf, a, b, p);
        }
      }
    }
  }

  lemma SliceBounds(buf: bytes, a: nat, b: nat)
    requires IsLineSlice(buf, a, b)
    ensures a <= b <= |buf|
  {
  }

  lemma ShortestReports(a: Regex, b: Regex, hay: bytes, from: nat)
    requires a.ast == b.ast && a.flags == b.flags && a.words == b.words
    ensures match a.Shortest(hay, from)
            case None => true
            case Some(sp) =>
              from <= sp.start && b.Reports(hay, sp) && forall p: nat | from <= p < sp.start :: !a.MatchStartsAt(hay, p)
  {
    hide Regex.MatchStartsAt;
    a.ShortestOk(hay, from);
  }

  /** What may be reported depends on the expression, not on the engine. */
  lemma SameReports(a: Regex, b: Regex, hay: bytes)
    requires a.ast == b.ast && a.flags == b.flags && a.words == b.words
    ensures forall p: nat :: a.MatchStartsAt(hay, p) <==> b.MatchStartsAt(hay, p)
  {
    forall p: nat
      ensures a.MatchStartsAt(hay, p) <==> b.MatchStartsAt(hay, p)
    {
      assert forall e: nat :: a.Reports(hay, Span(p, e)) <==> b.Reports(hay, Span(p, e));
    }
  }
}
