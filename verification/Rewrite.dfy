/** Replacing matches in a stretch of the buffer. */
module Rewriting {
  import opened Bytes

  /** A match and its expanded replacement. */
  datatype Expansion = Expansion(at: Span, text: bytes)

  /** Expansions within `from..to`, in order, not overlapping. */
  ghost predicate InOrder(reps: seq<Expansion>, from: nat, to: nat) {
    && from <= to
    && (forall k | 0 <= k < |reps| :: from <= reps[k].at.start <= reps[k].at.end <= to)
    && (forall j, k | 0 <= j < k < |reps| :: reps[j].at.end <= reps[k].at.start)
  }

  /** Where the source stands after `reps`. */
  function Reached(from: nat, reps: seq<Expansion>): nat {
    if reps == [] then from else reps[|reps| - 1].at.end
  }

  /** The rewritten text from `from` through the last replacement. */
  function Replaced(content: bytes, from: nat, reps: seq<Expansion>): bytes
    requires InOrder(reps, from, |content|)
  {
    if reps == [] then []
    else
      var init, rep := reps[..|reps| - 1], reps[|reps| - 1];
      Replaced(content, from, init) + content[Reached(from, init)..rep.at.start] + rep.text
  }

  /** `content[from..to]` with every match replaced. */
  function Rewrite(content: bytes, from: nat, reps: seq<Expansion>, to: nat): bytes
    requires InOrder(reps, from, to) && to <= |content|
  {
    Replaced(content, from, reps) + content[Reached(from, reps)..to]
  }

  /** Bytes the replacements add, less those they take away. */
  function Shift(reps: seq<Expansion>): int {
    if reps == [] then 0
    else
      var rep := reps[|reps| - 1];
      Shift(reps[..|reps| - 1]) + |rep.text| - (rep.at.end - rep.at.start)
  }

  lemma {:induction false} ReplacedLength(content: bytes, from: nat, reps: seq<Expansion>)
    requires InOrder(reps, from, |content|)
    ensures |Replaced(content, from, reps)| == Reached(from, reps) - from + Shift(reps)
  {
    if reps != [] {
      ReplacedLength(content, from, reps[..|reps| - 1]);
    }
  }

  /** Where the `k`-th replacement lands in the rewritten text. */
  function Landing(content: bytes, from: nat, reps: seq<Expansion>, k: nat): Span
    requires InOrder(reps, from, |content|) && k < |reps|
  {
    var end := |Replaced(content, from, reps[..k + 1])|;
    assert reps[..k + 1][..k] == reps[..k];
    Span(end - |reps[k].text|, end)
  }

  /** A replacement lands at its match's own offset moved by the length changes
      before it. This is the position a column and its shift add up to. */
  lemma LandingIsShifted(content: bytes, from: nat, reps: seq<Expansion>, k: nat)
    requires InOrder(reps, from, |content|) && k < |reps|
    ensures Landing(content, from, reps, k).start == reps[k].at.start - from + Shift(reps[..k])
    ensures Landing(content, from, reps, k).end == Landing(content, from, reps, k).start + |reps[k].text|
  {
    assert reps[..k + 1][..k] == reps[..k];
    ReplacedLength(content, from, reps[..k + 1]);
  }

  /** Replaced text only grows as more matches are replaced. */
  lemma {:induction false} ReplacedPrefix(content: bytes, from: nat, reps: seq<Expansion>, k: nat)
    requires InOrder(reps, from, |content|) && k <= |reps|
    ensures Replaced(content, from, reps[..k]) <= Replaced(content, from, reps)
    decreases |reps| - k
  {
    if k == |reps| {
      assert reps[..k] == reps;
    } else {
      ReplacedPrefix(content, from, reps, k + 1);
      assert reps[..k + 1][..k] == reps[..k];
    }
  }

  /** What stands where a replacement lands is that replacement. */
  lemma LandingHoldsText(content: bytes, from: nat, reps: seq<Expansion>, to: nat, k: nat)
    requires InOrder(reps, from, to) && to <= |content| && k < |reps|
    ensures var l := Landing(content, from, reps, k);
            l.end <= |Rewrite(content, from, reps, to)|
                && Rewrite(content, from, reps, to)[l.start..l.end] == reps[k].text
  {
    hide Replaced, Reached, Landing;
    var l := Landing(content, from, reps, k);
    ReplacedPrefix(content, from, reps, k + 1);
    ReplacedSnoc(content, from, reps, k);
    var t := Replaced(content, from, reps[..k + 1]);
    SuffixSlice(Replaced(content, from, reps[..k]) + content[Reached(from, reps[..k])..reps[k].at.start], reps[k].text);
    PrefixSlice(t, Rewrite(content, from, reps, to), l.start, l.end);
  }

  lemma RewriteSnoc(content: bytes, from: nat, init: seq<Expansion>, rep: Expansion, to: nat)
    requires InOrder(init, from, rep.at.start) && rep.at.start <= rep.at.end <= to <= |content|
    ensures InOrder(init + [rep], from, to)
    ensures Rewrite(content, from, init + [rep], to)
         == Rewrite(content, from, init, rep.at.start) + rep.text + content[rep.at.end..to]
  {
    var reps := init + [rep];
    assert reps[..|reps| - 1] == init && reps[|init|] == rep;
  }

  /** Rewriting a stretch is rewriting its two parts, when no match crosses the
      cut. */
  lemma {:induction false} RewriteSplits(content: bytes, from: nat, a: seq<Expansion>, mid: nat, b: seq<Expansion>,
                                         to: nat)
    requires InOrder(a, from, mid) && InOrder(b, mid, to) && mid <= to <= |content|
    ensures InOrder(a + b, from, to)
    ensures Rewrite(content, from, a + b, to) == Rewrite(content, from, a, mid) + Rewrite(content, mid, b, to)
  {
    hide Rewrite, InOrder;
    if b == [] {
      RewriteExtends(content, from, a, mid, to);
      RewriteNothing(content, mid, to);
      assert a + b == a;
    } else {
      var init, rep := b[..|b| - 1], b[|b| - 1];
      assert b == init + [rep] && a + b == (a + init) + [rep];
      InOrderSnoc(init, rep, mid, to);
      RewriteSplits(content, from, a, mid, init, rep.at.start);
      RewriteSnoc(content, mid, init, rep, to);
      RewriteSnoc(content, from, a + init, rep, to);
      Regroup3(Rewrite(content, from, a, mid), Rewrite(content, mid, init, rep.at.start), rep.text,
          content[rep.at.end..to]);
    }
  }

  /** Past the last match the source is copied. */
  lemma RewriteExtends(content: bytes, from: nat, reps: seq<Expansion>, mid: nat, to: nat)
    requires InOrder(reps, from, mid) && mid <= to <= |content|
    ensures InOrder(reps, from, to)
    ensures Rewrite(content, from, reps, to) == Rewrite(content, from, reps, mid) + content[mid..to]
  {
    SplitSlice(content, Reached(from, reps), mid, to);
  }

  lemma RewriteNothing(content: bytes, from: nat, to: nat)
    requires from <= to <= |content|
    ensures InOrder([], from, to) && Rewrite(content, from, [], to) == content[from..to]
  {
  }

  /** Rewriting across a stretch without matches copies that stretch. */
  lemma RewriteAcrossGap(content: bytes, done: seq<Expansion>, mid: nat, start: nat, more: seq<Expansion>, to: nat)
    requires InOrder(done, 0, mid) && mid <= start && InOrder(more, start, to) && start <= to <= |content|
    ensures InOrder(done + more, 0, to)
    ensures Rewrite(content, 0, done + more, to)
         == Rewrite(content, 0, done, mid) + content[mid..start] + Rewrite(content, start, more, to)
  {
    hide Rewrite, InOrder;
    RewriteExtends(content, 0, done, mid, start);
    RewriteSplits(content, 0, done, start, more, to);
  }

  lemma InOrderSnoc(init: seq<Expansion>, rep: Expansion, from: nat, to: nat)
    requires InOrder(init + [rep], from, to)
    ensures InOrder(init, from, rep.at.start) && rep.at.start <= rep.at.end <= to
  {
    var reps := init + [rep];
    assert reps[|init|] == rep;
    assert forall k | 0 <= k < |init| :: init[k] == reps[k];
  }

  lemma SuffixSlice(p: bytes, s: bytes)
    ensures (p + s)[|p|..|p + s|] == s
  {
  }

  lemma PrefixSlice(p: bytes, s: bytes, i: nat, j: nat)
    requires p <= s && i <= j <= |p|
    ensures s[i..j] == p[i..j]
  {
  }

  lemma Regroup3(a: bytes, b: bytes, c: bytes, d: bytes)
    ensures (a + b) + c + d == a + (b + c + d)
  {
  }

  lemma SplitSlice(s: bytes, a: nat, b: nat, c: nat)
    requires a <= b <= c <= |s|
    ensures s[a..c] == s[a..b] + s[b..c]
  {
  }

  /** Replacing every match by itself changes nothing. */
  lemma {:induction false} SelfReplacement(content: bytes, from: nat, reps: seq<Expansion>, to: nat)
    requires InOrder(reps, from, to) && to <= |content|
    requires forall k | 0 <= k < |reps| :: reps[k].text == content[reps[k].at.start..reps[k].at.end]
    ensures Rewrite(content, from, reps, to) == content[from..to]
  {
    if reps != [] {
      var init, rep := reps[..|reps| - 1], reps[|reps| - 1];
      SelfReplacement(content, from, init, rep.at.start);
      SplitSlice(content, from, rep.at.start, rep.at.end);
      SplitSlice(content, from, rep.at.end, to);
    }
  }

  /** One more replacement: the text, the place reached and where it lands. */
  lemma ReplacedSnoc(content: bytes, from: nat, reps: seq<Expansion>, k: nat)
    requires InOrder(reps, from, |content|) && k < |reps|
    ensures Reached(from, reps[..k + 1]) == reps[k].at.end
    ensures Reached(from, reps[..k]) <= reps[k].at.start
    ensures Replaced(content, from, reps[..k + 1])
         == Replaced(content, from, reps[..k]) + content[Reached(from, reps[..k])..reps[k].at.start] + reps[k].text
    ensures var end := |Replaced(content, from, reps[..k + 1])|;
            Landing(content, from, reps, k) == Span(end - |reps[k].text|, end)
  {
    assert reps[..k + 1][..k] == reps[..k];
  }

  lemma NoneReplaced(content: bytes, from: nat, reps: seq<Expansion>)
    requires InOrder(reps, from, |content|)
    ensures InOrder(reps[..0], from, |content|)
    ensures Reached(from, reps[..0]) == from && Replaced(content, from, reps[..0]) == []
  {
  }

  /** `replace_all`: the rewritten text and where each replacement landed. */
  method ReplaceAll(hay: bytes, reps: seq<Expansion>) returns (out: bytes, spans: seq<Span>)
    requires InOrder(reps, 0, |hay|)
    ensures out == Rewrite(hay, 0, reps, |hay|)
    ensures |spans| == |reps| && forall k | 0 <= k < |spans| :: spans[k] == Landing(hay, 0, reps, k)
  {
    hide Replaced, Landing;
    out, spans := [], [];
    var last, k := 0, 0;
    NoneReplaced(hay, 0, reps);
    while k < |reps|
      invariant 0 <= k <= |reps| && |spans| == k
      invariant last == Reached(0, reps[..k])
      invariant out == Replaced(hay, 0, reps[..k])
      invariant forall j | 0 <= j < k :: spans[j] == Landing(hay, 0, reps, j)
    {
      ReplacedSnoc(hay, 0, reps, k);
      out := out + hay[last..reps[k].at.start];
      var spanStart := |out|;
      out := out + reps[k].text;
      spans := spans + [Span(spanStart, |out|)];
      last := reps[k].at.end;
      k := k + 1;
    }
    assert reps[..k] == reps;
    out := out + hay[last..];
  }
}
