/** Regular expressions as the engine's intermediate form, what they match, and
    the two facts the search relies on: matches inside a line do not depend on
    the rest of the buffer, and some expressions never match a newline. */
module Hir {
  import opened Bytes
  import Utf8

  datatype WordKind = Boundary | NotBoundary | WordStart | WordEnd | HalfStart | HalfEnd

  datatype Look =
    | Start | End
    | StartLF | EndLF
    | StartCRLF | EndCRLF
    | Word(kind: WordKind, unicode: bool)

  datatype Hir =
    | Empty
    | Literal(lit: bytes)
    | ClassUnicode(points: seq<(int, int)>)
    | ClassBytes(ranges: seq<(int, int)>)
    | LookAt(look: Look)
    | Repetition(min: nat, max: Option<nat>, sub: Hir)
    | Capture(sub: Hir)
    | Concat(subs: seq<Hir>)
    | Alternation(subs: seq<Hir>)

  predicate InRanges(ranges: seq<(int, int)>, x: int) {
    exists i | 0 <= i < |ranges| :: ranges[i].0 <= x <= ranges[i].1
  }

  ghost predicate InUnicodeClass(points: seq<(int, int)>, s: bytes) {
    exists c: int :: InRanges(points, c) && Utf8.IsScalar(c) && Utf8.Encode(c) == s
  }

  predicate AsciiWord(s: bytes) {
    |s| == 1 && (s[0] == 95 || 48 <= s[0] <= 57 || 65 <= s[0] <= 90 || 97 <= s[0] <= 122)
  }

  /** The encoded characters `\w` holds under Unicode rules: any set at all, of
      which only whole characters other than line terminators count. */
  type WordTable = bytes -> bool

  predicate IsWordChar(words: WordTable, unicode: bool, s: bytes) {
    && Utf8.IsChar(s) && s != [NL] && s != [CR]
    && if unicode then words(s) else AsciiWord(s)
  }

  predicate WordSlice(words: WordTable, unicode: bool, hay: bytes, i: nat, j: nat) {
    i <= j <= |hay| && IsWordChar(words, unicode, hay[i..j])
  }

  /** A word character ends at `p`. */
  ghost predicate WordBefore(words: WordTable, unicode: bool, hay: bytes, p: nat) {
    exists q: nat :: WordSlice(words, unicode, hay, q, p)
  }

  /** A word character starts at `p`. */
  ghost predicate WordAfter(words: WordTable, unicode: bool, hay: bytes, p: nat) {
    exists q: nat :: WordSlice(words, unicode, hay, p, q)
  }

  ghost predicate LookHolds(words: WordTable, look: Look, hay: bytes, p: nat)
    requires p <= |hay|
  {
    match look
    case Start => p == 0
    case End => p == |hay|
    case StartLF => p == 0 || hay[p - 1] == NL
    case EndLF => p == |hay| || hay[p] == NL
    case StartCRLF =>
      p == 0 || hay[p - 1] == NL || (hay[p - 1] == CR && (p == |hay| || hay[p] != NL))
    case EndCRLF =>
      p == |hay| || hay[p] == CR || (hay[p] == NL && (p == 0 || hay[p - 1] != CR))
    case Word(kind, u) =>
      var before, after := WordBefore(words, u, hay, p), WordAfter(words, u, hay, p);
      match kind
      case Boundary => before != after
      case NotBoundary => before == after
      case WordStart => !before && after
      case WordEnd => before && !after
      case HalfStart => !before
      case HalfEnd => !after
  }

  /** `k` repetitions are allowed by `{min,max}`. */
  predicate InBounds(min: nat, max: Option<nat>, k: nat) {
    min <= k && (max.Some? ==> k <= max.value)
  }

  /** `h` can match exactly `hay[s..e]`, with all of `hay` in view. */
  ghost predicate Matches(words: WordTable, h: Hir, hay: bytes, s: nat, e: nat)
    requires s <= e <= |hay|
    decreases h, 0
  {
    match h
    case Empty => s == e
    case Literal(lit) => hay[s..e] == lit
    case ClassUnicode(points) => InUnicodeClass(points, hay[s..e])
    case ClassBytes(ranges) => e == s + 1 && InRanges(ranges, hay[s])
    case LookAt(look) => s == e && LookHolds(words, look, hay, s)
    case Repetition(min, max, sub) =>
      exists k: nat :: InBounds(min, max, k) && MatchesTimes(words, sub, k, hay, s, e)
    case Capture(sub) => Matches(words, sub, hay, s, e)
    case Concat(subs) => MatchesSeq(words, subs, hay, s, e)
    case Alternation(subs) => exists i | 0 <= i < |subs| :: Matches(words, subs[i], hay, s, e)
  }

  ghost predicate MatchesTimes(words: WordTable, h: Hir, k: nat, hay: bytes, s: nat, e: nat)
    requires s <= e <= |hay|
    decreases h, k
  {
    if k == 0 then s == e
    else exists m | s <= m <= e :: Matches(words, h, hay, s, m) && MatchesTimes(words, h, k - 1, hay, m, e)
  }

  ghost predicate MatchesSeq(words: WordTable, subs: seq<Hir>, hay: bytes, s: nat, e: nat)
    requires s <= e <= |hay|
    decreases subs, 0
  {
    if subs == [] then s == e
    else exists m | s <= m <= e :: Matches(words, subs[0], hay, s, m) && MatchesSeq(words, subs[1..], hay, m, e)
  }

  // ---------------------------------------------------------------------------
  // Locality

  predicate AnchorFree(h: Hir) {
    match h
    case Empty => true
    case Literal(_) => true
    case ClassUnicode(_) => true
    case ClassBytes(_) => true
    case LookAt(look) => look.Word?
    case Repetition(_, _, sub) => AnchorFree(sub)
    case Capture(sub) => AnchorFree(sub)
    case Concat(subs) => forall i | 0 <= i < |subs| :: AnchorFree(subs[i])
    case Alternation(subs) => forall i | 0 <= i < |subs| :: AnchorFree(subs[i])
  }

  /** `buf[a..b]` is bordered by line terminators or by the ends of the buffer. */
  ghost predicate IsLineSlice(buf: bytes, a: nat, b: nat) {
    && a <= b <= |buf|
    && (a > 0 ==> buf[a - 1] == NL)
    && (b < |buf| ==> buf[b] in {NL, CR})
  }

  /** A character that contains a line terminator is that terminator. */
  lemma TerminatorIsAlone(s: bytes, i: nat)
    requires Utf8.IsChar(s) && i < |s| && s[i] in {NL, CR}
    ensures s == [s[i]]
  {
  }

  /** No word character spans a line terminator. */
  lemma NoWordAcross(words: WordTable, u: bool, buf: bytes, i: nat, j: nat, t: nat)
    requires i <= t < j <= |buf| && buf[t] in {NL, CR}
    ensures !WordSlice(words, u, buf, i, j)
  {
    assert buf[i..j][t - i] == buf[t];
    if Utf8.IsChar(buf[i..j]) {
      TerminatorIsAlone(buf[i..j], t - i);
    }
  }

  lemma WordBeforeIsLocal(words: WordTable, u: bool, buf: bytes, a: nat, b: nat, p: nat)
    requires IsLineSlice(buf, a, b) && p <= b - a
    ensures WordBefore(words, u, buf[a..b], p) <==> WordBefore(words, u, buf, a + p)
  {
    hide IsWordChar;
    if WordBefore(words, u, buf[a..b], p) {
      var q: nat :| WordSlice(words, u, buf[a..b], q, p);
      SliceInSlice(buf, a, b, q, p);
      assert WordSlice(words, u, buf, a + q, a + p);
    }
    if WordBefore(words, u, buf, a + p) {
      var q: nat :| WordSlice(words, u, buf, q, a + p);
      if q < a {
        NoWordAcross(words, u, buf, q, a + p, a - 1);
      } else {
        SliceInSlice(buf, a, b, q - a, p);
        assert WordSlice(words, u, buf[a..b], q - a, p);
      }
    }
  }

  lemma WordAfterIsLocal(words: WordTable, u: bool, buf: bytes, a: nat, b: nat, p: nat)
    requires IsLineSlice(buf, a, b) && p <= b - a
    ensures WordAfter(words, u, buf[a..b], p) <==> WordAfter(words, u, buf, a + p)
  {
    hide IsWordChar;
    if WordAfter(words, u, buf[a..b], p) {
      var q: nat :| WordSlice(words, u, buf[a..b], p, q);
      SliceInSlice(buf, a, b, p, q);
      assert WordSlice(words, u, buf, a + p, a + q);
    }
    if WordAfter(words, u, buf, a + p) {
      var q: nat :| WordSlice(words, u, buf, a + p, q);
      if q > b {
        NoWordAcross(words, u, buf, a + p, q, b);
      } else {
        SliceInSlice(buf, a, b, p, q - a);
        assert WordSlice(words, u, buf[a..b], p, q - a);
      }
    }
  }

  /** Without anchors, matching inside a line and matching in the buffer are the
      same: nothing else in an expression can see where the text was cut. */
  lemma {:induction false} MatchIsLocal(words: WordTable, h: Hir, buf: bytes, a: nat, b: nat, s: nat, e: nat)
    requires IsLineSlice(buf, a, b) && s <= e <= b - a && AnchorFree(h)
    ensures Matches(words, h, buf[a..b], s, e) <==> Matches(words, h, buf, a + s, a + e)
    decreases h, 0
  {
    var line := buf[a..b];
    SliceInSlice(buf, a, b, s, e);
    match h
    case Empty =>
    case Literal(_) =>
    case ClassUnicode(_) =>
    case ClassBytes(_) =>
    case LookAt(look) =>
      WordBeforeIsLocal(words, look.unicode, buf, a, b, s);
      WordAfterIsLocal(words, look.unicode, buf, a, b, s);
      assert LookHolds(words, look, line, s) <==> LookHolds(words, look, buf, a + s);
    case Repetition(min, max, sub) =>
      if Matches(words, h, line, s, e) {
        var k: nat :| InBounds(min, max, k) && MatchesTimes(words, sub, k, line, s, e);
        TimesIsLocal(words, sub, k, buf, a, b, s, e);
      }
      if Matches(words, h, buf, a + s, a + e) {
        var k: nat :| InBounds(min, max, k) && MatchesTimes(words, sub, k, buf, a + s, a + e);
        TimesIsLocal(words, sub, k, buf, a, b, s, e);
      }
    case Capture(sub) =>
      MatchIsLocal(words, sub, buf, a, b, s, e);
    case Concat(subs) =>
      SeqIsLocal(words, subs, buf, a, b, s, e);
    case Alternation(subs) =>
      forall i | 0 <= i < |subs|
        ensures Matches(words, subs[i], line, s, e) <==> Matches(words, subs[i], buf, a + s, a + e)
      {
        MatchIsLocal(words, subs[i], buf, a, b, s, e);
      }
  }

  lemma {:induction false} TimesIsLocal(words: WordTable, h: Hir, k: nat, buf: bytes, a: nat, b: nat, s: nat, e: nat)
    requires IsLineSlice(buf, a, b) && s <= e <= b - a && AnchorFree(h)
    ensures MatchesTimes(words, h, k, buf[a..b], s, e) <==> MatchesTimes(words, h, k, buf, a + s, a + e)
    decreases h, k
  {
    var line := buf[a..b];
    if k > 0 {
      forall m | s <= m <= e
        ensures Matches(words, h, line, s, m) <==> Matches(words, h, buf, a + s, a + m)
        ensures MatchesTimes(words, h, k - 1, line, m, e) <==> MatchesTimes(words, h, k - 1, buf, a + m, a + e)
      {
        MatchIsLocal(words, h, buf, a, b, s, m);
        TimesIsLocal(words, h, k - 1, buf, a, b, m, e);
      }
      if MatchesTimes(words, h, k, buf, a + s, a + e) {
        var m :| a + s <= m <= a + e && Matches(words, h, buf, a + s, m)
            && MatchesTimes(words, h, k - 1, buf, m, a + e);
        assert m == a + (m - a);
        assert Matches(words, h, line, s, m - a);
      }
    }
  }

  lemma {:induction false} SeqIsLocal(words: WordTable, subs: seq<Hir>, buf: bytes, a: nat, b: nat, s: nat, e: nat)
    requires IsLineSlice(buf, a, b) && s <= e <= b - a
    requires forall i | 0 <= i < |subs| :: AnchorFree(subs[i])
    ensures MatchesSeq(words, subs, buf[a..b], s, e) <==> MatchesSeq(words, subs, buf, a + s, a + e)
    decreases subs, 0
  {
    var line := buf[a..b];
    if subs != [] {
      forall m | s <= m <= e
        ensures Matches(words, subs[0], line, s, m) <==> Matches(words, subs[0], buf, a + s, a + m)
        ensures MatchesSeq(words, subs[1..], line, m, e) <==> MatchesSeq(words, subs[1..], buf, a + m, a + e)
      {
        MatchIsLocal(words, subs[0], buf, a, b, s, m);
        SeqIsLocal(words, subs[1..], buf, a, b, m, e);
      }
      if MatchesSeq(words, subs, buf, a + s, a + e) {
        var m :| a + s <= m <= a + e && Matches(words, subs[0], buf, a + s, m)
            && MatchesSeq(words, subs[1..], buf, m, a + e);
        assert m == a + (m - a);
        assert Matches(words, subs[0], line, s, m - a);
      }
    }
  }

  /** A look holds on a line taken alone where it holds in the buffer. */
  ghost predicate LookIsLocal(words: WordTable, look: Look, buf: bytes, a: nat, b: nat)
    requires IsLineSlice(buf, a, b)
  {
    forall p: nat | p <= b - a :: LookHolds(words, look, buf[a..b], p) <==> LookHolds(words, look, buf, a + p)
  }

  /** Whether a line's place in the buffer hides the cut from a look. */
  predicate CutIsHidden(look: Look, buf: bytes, a: nat, b: nat)
    requires a <= b <= |buf|
  {
    match look
    case Start => a == 0
    case End => b == |buf|
    case StartLF => true
    case EndLF => b == |buf| || buf[b] == NL
    case StartCRLF => !SplitsReturn(buf, a, b)
    case EndCRLF => !SplitsReturn(buf, a, b)
    case Word(_, _) => true
  }

  /** The line was cut between the bytes of `\r\n`. */
  predicate SplitsReturn(buf: bytes, a: nat, b: nat)
    requires a <= b <= |buf|
  {
    a < b < |buf| && buf[b - 1] == CR && buf[b] == NL
  }

  /** A look holds alike on the line and in the buffer exactly where the cut is hidden
      from it. Only anchors, which the anchor scan keeps out, ever see a cut. */
  lemma LookIsLocalExactly(words: WordTable, look: Look, buf: bytes, a: nat, b: nat)
    requires IsLineSlice(buf, a, b) && NL !in buf[a..b]
    ensures LookIsLocal(words, look, buf, a, b) <==> CutIsHidden(look, buf, a, b)
  {
    var line := buf[a..b];
    if look.Word? {
      forall p: nat | p <= b - a
        ensures LookHolds(words, look, line, p) <==> LookHolds(words, look, buf, a + p)
      {
        WordBeforeIsLocal(words, look.unicode, buf, a, b, p);
        WordAfterIsLocal(words, look.unicode, buf, a, b, p);
      }
    } else {
      AnchorIsLocalExactly(words, look, buf, a, b);
    }
  }

  lemma AnchorIsLocalExactly(words: WordTable, look: Look, buf: bytes, a: nat, b: nat)
    requires IsLineSlice(buf, a, b) && NL !in buf[a..b] && !look.Word?
    ensures LookIsLocal(words, look, buf, a, b) <==> CutIsHidden(look, buf, a, b)
  {
    hide WordBefore, WordAfter;
    var line := buf[a..b];
    assert forall i | 0 <= i < b - a :: line[i] == buf[a + i] && line[i] in line;
    var n: nat := b - a;
    assert LookIsLocal(words, look, buf, a, b) ==>
             && (LookHolds(words, look, line, 0) <==> LookHolds(words, look, buf, a + 0))
             && (LookHolds(words, look, line, n) <==> LookHolds(words, look, buf, a + n));
  }

  // ---------------------------------------------------------------------------
  // Newlines

  /** Whether any match could include a newline, by the static analysis that
      chooses between line and block printing. Line anchors count. */
  predicate CanMatchNewline(h: Hir) {
    match h
    case Empty => false
    case Literal(lit) => NL in lit
    case ClassUnicode(points) => InRanges(points, NL)
    case ClassBytes(ranges) => InRanges(ranges, NL)
    case LookAt(look) => !look.Word?
    case Repetition(_, _, sub) => CanMatchNewline(sub)
    case Capture(sub) => CanMatchNewline(sub)
    case Concat(subs) => exists i | 0 <= i < |subs| :: CanMatchNewline(subs[i])
    case Alternation(subs) => exists i | 0 <= i < |subs| :: CanMatchNewline(subs[i])
  }

  ghost predicate NoNewline(hay: bytes, s: nat, e: nat)
    requires s <= e <= |hay|
  {
    forall i | s <= i < e :: hay[i] != NL
  }

  /** The analysis is sound: when it says no, no match contains a newline. */
  lemma {:induction false} NewlineAnalysisSound(words: WordTable, h: Hir, hay: bytes, s: nat, e: nat)
    requires s <= e <= |hay| && !CanMatchNewline(h) && Matches(words, h, hay, s, e)
    ensures NoNewline(hay, s, e)
    decreases h, 0
  {
    match h
    case Empty =>
    case Literal(lit) =>
      assert forall i | s <= i < e :: hay[i] == lit[i - s];
    case ClassUnicode(points) =>
      var c :| InRanges(points, c) && Utf8.IsScalar(c) && Utf8.Encode(c) == hay[s..e];
      Utf8.EncodeDecode(c);
      forall i | s <= i < e
        ensures hay[i] != NL
      {
        var ch := hay[s..e];
        assert ch[i - s] == hay[i];
        assert Utf8.Decode([NL]) == NL;
        if ch[i - s] in {NL, CR} {
          TerminatorIsAlone(ch, i - s);
        }
      }
    case ClassBytes(_) =>
    case LookAt(_) =>
    case Repetition(min, max, sub) =>
      var k: nat :| InBounds(min, max, k) && MatchesTimes(words, sub, k, hay, s, e);
      NewlineFreeTimes(words, sub, k, hay, s, e);
    case Capture(sub) =>
      NewlineAnalysisSound(words, sub, hay, s, e);
    case Concat(subs) =>
      NewlineFreeSeq(words, subs, hay, s, e);
    case Alternation(subs) =>
      var i :| 0 <= i < |subs| && Matches(words, subs[i], hay, s, e);
      NewlineAnalysisSound(words, subs[i], hay, s, e);
  }

  lemma {:induction false} NewlineFreeTimes(words: WordTable, h: Hir, k: nat, hay: bytes, s: nat, e: nat)
    requires s <= e <= |hay| && !CanMatchNewline(h) && MatchesTimes(words, h, k, hay, s, e)
    ensures NoNewline(hay, s, e)
    decreases h, k
  {
    if k > 0 {
      var m :| s <= m <= e && Matches(words, h, hay, s, m) && MatchesTimes(words, h, k - 1, hay, m, e);
      NewlineAnalysisSound(words, h, hay, s, m);
      NewlineFreeTimes(words, h, k - 1, hay, m, e);
    }
  }

  lemma {:induction false} NewlineFreeSeq(words: WordTable, subs: seq<Hir>, hay: bytes, s: nat, e: nat)
    requires s <= e <= |hay| && MatchesSeq(words, subs, hay, s, e)
    requires forall i | 0 <= i < |subs| :: !CanMatchNewline(subs[i])
    ensures NoNewline(hay, s, e)
    decreases subs, 0
  {
    if subs != [] {
      var m :| s <= m <= e && Matches(words, subs[0], hay, s, m) && MatchesSeq(words, subs[1..], hay, m, e);
      NewlineAnalysisSound(words, subs[0], hay, s, m);
      NewlineFreeSeq(words, subs[1..], hay, m, e);
    }
  }

  /** Anchors count as matching newlines, so an expression that passes the
      analysis is anchor-free and therefore local. */
  lemma {:induction false} NewlineFreeIsAnchorFree(h: Hir)
    requires !CanMatchNewline(h)
    ensures AnchorFree(h)
  {
    match h
    case Empty =>
    case Literal(_) =>
    case ClassUnicode(_) =>
    case ClassBytes(_) =>
    case LookAt(_) =>
    case Repetition(_, _, sub) => NewlineFreeIsAnchorFree(sub);
    case Capture(sub) => NewlineFreeIsAnchorFree(sub);
    case Concat(subs) =>
      forall i | 0 <= i < |subs| ensures AnchorFree(subs[i]) { NewlineFreeIsAnchorFree(subs[i]); }
    case Alternation(subs) =>
      forall i | 0 <= i < |subs| ensures AnchorFree(subs[i]) { NewlineFreeIsAnchorFree(subs[i]); }
  }
}
