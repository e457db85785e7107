/** Sorting and merging of spans on one line. */
module SpanOrder {
  import opened Bytes

  predicate Le(a: Span, b: Span) {
    a.start < b.start || (a.start == b.start && a.end <= b.end)
  }

  ghost predicate Sorted(s: seq<Span>) {
    forall j, k | 0 <= j < k < |s| :: Le(s[j], s[k])
  }

  function Insert(s: seq<Span>, x: Span): seq<Span> {
    if s == [] then [x]
    else if Le(s[|s| - 1], x) then s + [x]
    else Insert(s[..|s| - 1], x) + [s[|s| - 1]]
  }

  /** `sort_unstable` on pairs: any sort will do, see `SortedUnique`. */
  function Sort(s: seq<Span>): seq<Span> {
    if s == [] then [] else Insert(Sort(s[..|s| - 1]), s[|s| - 1])
  }

  lemma Snoc(s: seq<Span>)
    requires s != []
    ensures s == s[..|s| - 1] + [s[|s| - 1]]
    ensures multiset(s) == multiset(s[..|s| - 1]) + multiset{s[|s| - 1]}
  {
    assert s == s[..|s| - 1] + [s[|s| - 1]];
  }

  /** The last of a sorted sequence is above each of its elements. */
  lemma LastIsGreatest(s: seq<Span>, x: Span)
    requires Sorted(s) && x in multiset(s)
    ensures s != [] && Le(x, s[|s| - 1])
  {
    var k :| 0 <= k < |s| && s[k] == x;
  }

  lemma SortedSnoc(s: seq<Span>, x: Span)
    requires Sorted(s) && forall y | y in multiset(s) :: Le(y, x)
    ensures Sorted(s + [x])
  {
    forall k | 0 <= k < |s|
      ensures Le(s[k], x)
    {
      assert s[k] in multiset(s);
    }
  }

  lemma {:induction false} InsertSorts(s: seq<Span>, x: Span)
    requires Sorted(s)
    ensures Sorted(Insert(s, x)) && multiset(Insert(s, x)) == multiset(s) + multiset{x}
  {
    if s == [] {
    } else if Le(s[|s| - 1], x) {
      forall y | y in multiset(s)
        ensures Le(y, x)
      {
        LastIsGreatest(s, y);
      }
      SortedSnoc(s, x);
    } else {
      var init, last := s[..|s| - 1], s[|s| - 1];
      InsertSorts(init, x);
      Snoc(s);
      forall y | y in multiset(Insert(init, x))
        ensures Le(y, last)
      {
        if y != x {
          LastIsGreatest(s, y);
        }
      }
      SortedSnoc(Insert(init, x), last);
    }
  }

  lemma {:induction false} SortSorts(s: seq<Span>)
    ensures Sorted(Sort(s)) && multiset(Sort(s)) == multiset(s)
  {
    if s != [] {
      SortSorts(s[..|s| - 1]);
      InsertSorts(Sort(s[..|s| - 1]), s[|s| - 1]);
      Snoc(s);
    }
  }

  /** There is one sorted arrangement of a collection of spans. */
  lemma {:induction false} SortedUnique(a: seq<Span>, b: seq<Span>)
    requires Sorted(a) && Sorted(b) && multiset(a) == multiset(b)
    ensures a == b
  {
    SameSize(a, b);
    if a != [] {
      Snoc(a);
      Snoc(b);
      LastIsGreatest(a, b[|b| - 1]);
      LastIsGreatest(b, a[|a| - 1]);
      RestSame(multiset(a[..|a| - 1]), multiset(b[..|b| - 1]), a[|a| - 1]);
      SortedUnique(a[..|a| - 1], b[..|b| - 1]);
    }
  }

  lemma RestSame(m: multiset<Span>, n: multiset<Span>, x: Span)
    requires m + multiset{x} == n + multiset{x}
    ensures m == n
  {
    assert m == m + multiset{x} - multiset{x} && n == n + multiset{x} - multiset{x};
  }

  lemma SameSize(a: seq<Span>, b: seq<Span>)
    requires multiset(a) == multiset(b)
    ensures |a| == |b|
  {
    assert |multiset(a)| == |a| && |multiset(b)| == |b|;
  }

  /** Join each span to the one before it when they overlap; spans that only
      touch stay apart. */
  function Merge(s: seq<Span>): seq<Span> {
    if s == [] then []
    else Absorb(Merge(s[..|s| - 1]), s[|s| - 1])
  }

  function Absorb(m: seq<Span>, x: Span): seq<Span> {
    if m != [] && x.start < m[|m| - 1].end then
      m[..|m| - 1] + [Span(m[|m| - 1].start, Max(m[|m| - 1].end, x.end))]
    else m + [x]
  }

  method MergeSorted(s: seq<Span>) returns (merged: seq<Span>)
    ensures merged == Merge(s)
  {
    merged := [];
    var i := 0;
    while i < |s|
      invariant 0 <= i <= |s| && merged == Merge(s[..i])
    {
      assert s[..i + 1][..i] == s[..i];
      if merged != [] && s[i].start < merged[|merged| - 1].end {
        var last := merged[|merged| - 1];
        merged := merged[|merged| - 1 := last.(end := Max(last.end, s[i].end))];
      } else {
        merged := merged + [s[i]];
      }
      i := i + 1;
    }
    assert s[..i] == s;
  }

  ghost predicate Apart(s: seq<Span>) {
    && (forall k | 0 <= k < |s| :: s[k].start <= s[k].end)
    && (forall j, k | 0 <= j < k < |s| :: s[j].end <= s[k].start)
  }

  ghost predicate Holds(s: seq<Span>, p: int) {
    exists k | 0 <= k < |s| :: s[k].start <= p < s[k].end
  }

  ghost predicate WellFormed(s: seq<Span>) {
    forall k | 0 <= k < |s| :: s[k].start <= s[k].end
  }

  /** What `Merge` keeps while it takes in sorted spans up to `last`. */
  ghost predicate MergedSoFar(m: seq<Span>, s: seq<Span>, limit: nat) {
    && Apart(m)
    && (forall k | 0 <= k < |m| :: m[k].end <= limit)
    && (forall p: int :: Holds(m, p) <==> Holds(s, p))
    && (m == [] <==> s == [])
    && (s != [] ==> m[|m| - 1].start <= s[|s| - 1].start)
  }

  lemma MergeStep(m: seq<Span>, s: seq<Span>, x: Span, limit: nat)
    requires MergedSoFar(m, s, limit) && x.start <= x.end <= limit
    requires s != [] ==> s[|s| - 1].start <= x.start
    ensures MergedSoFar(Absorb(m, x), s + [x], limit)
  {
    AbsorbIsExact(m, x);
    forall p: int
      ensures Holds(Absorb(m, x), p) <==> Holds(s + [x], p)
    {
      HoldsSnoc(s, x, p);
    }
  }

  /** Merging sorted spans leaves them in order and apart and covers the same
      positions, with no end beyond the spans it was given. */
  lemma {:induction false} MergeIsExact(s: seq<Span>, limit: nat)
    requires Sorted(s) && WellFormed(s) && forall k | 0 <= k < |s| :: s[k].end <= limit
    ensures MergedSoFar(Merge(s), s, limit)
  {
    if s != [] {
      var init := s[..|s| - 1];
      MergeIsExact(init, limit);
      Snoc(s);
      if init != [] {
        assert Le(s[|s| - 2], s[|s| - 1]) && init[|init| - 1] == s[|s| - 2];
      }
      MergeStep(Merge(init), init, s[|s| - 1], limit);
    }
  }

  lemma HoldsSnoc(s: seq<Span>, x: Span, p: int)
    ensures Holds(s + [x], p) <==> Holds(s, p) || x.start <= p < x.end
  {
    var t := s + [x];
    assert t[|s|] == x;
    assert forall k | 0 <= k < |s| :: t[k] == s[k];
  }

  lemma MergeNotEmpty(s: seq<Span>)
    requires s != []
    ensures Merge(s) != []
  {
  }

  lemma AbsorbIsExact(m: seq<Span>, x: Span)
    requires Apart(m) && x.start <= x.end
    requires m != [] ==> m[|m| - 1].start <= x.start
    ensures Apart(Absorb(m, x))
    ensures forall p: int :: Holds(Absorb(m, x), p) <==> Holds(m, p) || x.start <= p < x.end
  {
    forall p: int
      ensures Holds(Absorb(m, x), p) <==> Holds(m, p) || x.start <= p < x.end
    {
      if m != [] && x.start < m[|m| - 1].end {
        var last := m[|m| - 1];
        HoldsSnoc(m[..|m| - 1], last, p);
        HoldsSnoc(m[..|m| - 1], Span(last.start, Max(last.end, x.end)), p);
        assert m == m[..|m| - 1] + [last];
      } else {
        HoldsSnoc(m, x, p);
      }
    }
  }

  /** Spans that are already in order and apart are left as they are. */
  lemma {:induction false} ApartIsFixed(s: seq<Span>)
    requires Apart(s)
    ensures Sort(s) == s && Merge(s) == s
  {
    if s != [] {
      hide Insert, Absorb;
      var init, x := s[..|s| - 1], s[|s| - 1];
      ApartIsFixed(init);
      Snoc(s);
      assert init != [] ==> init[|init| - 1] == s[|s| - 2];
      InsertLast(init, x);
    }
  }

  lemma InsertLast(s: seq<Span>, x: Span)
    requires s != [] ==> s[|s| - 1].start <= s[|s| - 1].end <= x.start <= x.end
    ensures Insert(s, x) == s + [x] && Absorb(s, x) == s + [x]
  {
  }
}
