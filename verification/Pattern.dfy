/** Patterns as text: their syntax tree, its spelling and its meaning, and the
    byte scan that looks for anchors in the spelling. */
module Pattern {
  import opened Bytes
  import opened Hir

  const BACKSLASH: byte := 92
  const CARET: byte := 94
  const DOLLAR: byte := 36

  /** The letters that escape to an edge of the haystack: `A`, `Z`, `z`. */
  const EDGE_LETTERS: set<byte> := {65, 90, 122}

  datatype ClassAtom = Raw(b: byte) | Quoted(b: byte)

  type Ranges = seq<(int, int)>

  /** What a class holds under each setting: code points where Unicode is on, bytes
      where it is off, and either with the case variants added. */
  datatype Points = Points(unicode: Ranges, unicodeFolded: Ranges, ascii: Ranges, asciiFolded: Ranges) {
    function Under(f: Flags): Ranges {
      if f.unicode then (if f.ignoreCase then unicodeFolded else unicode)
      else if f.ignoreCase then asciiFolded else ascii
    }

    /** No other character is a case variant of a newline, and a class holds it or
        not whichever tables are used. */
    predicate AgreeOnNewline() {
      && (InRanges(unicodeFolded, NL) <==> InRanges(unicode, NL))
      && (InRanges(ascii, NL) <==> InRanges(unicode, NL))
      && (InRanges(asciiFolded, NL) <==> InRanges(unicode, NL))
    }
  }

  /** Plain text with case ignored: a class for each character where Unicode is on,
      for each byte where it is off. */
  datatype Folding = Folding(unicode: seq<Ranges>, ascii: seq<Ranges>)

  /** A pattern's syntax tree. Classes carry what their spelling denotes, and text
      its case variants, because the Unicode tables are not part of this model. */
  datatype Ast =
    | Nothing
    | Verbatim(text: bytes, folded: Folding)
    | Escaped(b: byte)
    | Dot
    | LineEdge(end: bool)
    | TextEdge(end: bool)
    | WordEdge(letter: byte, tail: bytes, kind: WordKind)
    | Shorthand(letter: byte, tail: bytes, points: Points)
    | Bracket(atoms: seq<ClassAtom>, points: Points)
    | Repeat(sub: Ast, op: bytes, min: nat, max: Option<nat>)
    | Group(open: bytes, sub: Ast)
    | Then(left: Ast, right: Ast)
    | Or(left: Ast, right: Ast)

  predicate Plain(s: bytes) {
    BACKSLASH !in s && CARET !in s && DOLLAR !in s
  }

  /** The tree's pieces of text are what their constructors claim. */
  predicate WellSpelled(t: Ast) {
    match t
    case Nothing => true
    case Verbatim(text, folded) =>
      && Plain(text)
      && (SomeHoldsNewline(folded.unicode) <==> NL in text)
      && (SomeHoldsNewline(folded.ascii) <==> NL in text)
    case Escaped(b) => b !in EDGE_LETTERS
    case Dot => true
    case LineEdge(_) => true
    case TextEdge(_) => true
    case WordEdge(letter, tail, _) => letter !in EDGE_LETTERS && Plain(tail)
    case Shorthand(letter, tail, points) => letter !in EDGE_LETTERS && Plain(tail) && points.AgreeOnNewline()
    case Bracket(atoms, points) => WellSpelledAtoms(atoms) && points.AgreeOnNewline()
    case Repeat(sub, op, _, _) => WellSpelled(sub) && Plain(op)
    case Group(open, sub) => Plain(open) && WellSpelled(sub)
    case Then(left, right) => WellSpelled(left) && WellSpelled(right)
    case Or(left, right) => WellSpelled(left) && WellSpelled(right)
  }

  predicate WellSpelledAtoms(atoms: seq<ClassAtom>) {
    forall i | 0 <= i < |atoms| :: atoms[i].Raw? ==> atoms[i].b != BACKSLASH
  }

  predicate SomeHoldsNewline(classes: seq<Ranges>) {
    exists i | 0 <= i < |classes| :: InRanges(classes[i], NL)
  }

  function SpellAtoms(atoms: seq<ClassAtom>): bytes {
    if atoms == [] then []
    else
      (match atoms[0] case Raw(b) => [b] case Quoted(b) => [BACKSLASH, b]) + SpellAtoms(atoms[1..])
  }

  /** The pattern text of a tree. */
  function Spell(t: Ast): bytes {
    match t
    case Nothing => []
    case Verbatim(text, _) => text
    case Escaped(b) => [BACKSLASH, b]
    case Dot => [46]
    case LineEdge(end) => [if end then DOLLAR else CARET]
    case TextEdge(end) => [BACKSLASH, if end then 122 else 65]
    case WordEdge(letter, tail, _) => [BACKSLASH, letter] + tail
    case Shorthand(letter, tail, _) => [BACKSLASH, letter] + tail
    case Bracket(atoms, _) => [91] + (SpellAtoms(atoms) + [93])
    case Repeat(sub, op, _, _) => Spell(sub) + op
    case Group(open, sub) => open + (Spell(sub) + [41])
    case Then(left, right) => Spell(left) + Spell(right)
    case Or(left, right) => Spell(left) + ([124] + Spell(right))
  }

  datatype Flags = Flags(multiLine: bool, dotall: bool, ignoreCase: bool, unicode: bool)

  /** The flags of the parse the newline analysis looks at: of the settings the
      pattern was compiled with it keeps only what `.` matches. */
  function AnalysisFlags(f: Flags): Flags {
    Flags(true, f.dotall, false, true)
  }

  function Class(ranges: Ranges, f: Flags): Hir {
    if f.unicode then ClassUnicode(ranges) else ClassBytes(ranges)
  }

  function Classes(classes: seq<Ranges>, f: Flags): (r: seq<Hir>)
    ensures |r| == |classes| && forall i | 0 <= i < |r| :: r[i] == Class(classes[i], f)
  {
    seq(|classes|, i requires 0 <= i < |classes| => Class(classes[i], f))
  }

  /** What `.` holds. */
  function DotRanges(f: Flags): Ranges {
    var top := if f.unicode then 0x10FFFF else 255;
    if f.dotall then [(0, top)] else [(0, NL - 1), (NL + 1, top)]
  }

  /** What a tree means to the engine. */
  function Lower(t: Ast, f: Flags): Hir {
    match t
    case Nothing => Empty
    case Verbatim(text, folded) =>
      if f.ignoreCase then Concat(Classes(if f.unicode then folded.unicode else folded.ascii, f)) else Literal(text)
    case Escaped(b) => Literal([b])
    case Dot => Class(DotRanges(f), f)
    case LineEdge(end) =>
      LookAt(if f.multiLine then (if end then EndLF else StartLF) else (if end then End else Start))
    case TextEdge(end) => LookAt(if end then End else Start)
    case WordEdge(_, _, kind) => LookAt(Word(kind, f.unicode))
    case Shorthand(_, _, points) => Class(points.Under(f), f)
    case Bracket(_, points) => Class(points.Under(f), f)
    case Repeat(sub, _, min, max) => Repetition(min, max, Lower(sub, f))
    case Group(_, sub) => Capture(Lower(sub, f))
    case Then(left, right) => Concat([Lower(left, f), Lower(right, f)])
    case Or(left, right) => Alternation([Lower(left, f), Lower(right, f)])
  }

  // ---------------------------------------------------------------------------
  // The anchor scan

  /** No unescaped `^` or `$`, no escaped edge letter, no lone final backslash. */
  function AnchorFreeText(p: bytes): bool {
    if p == [] then true
    else if p[0] == BACKSLASH then |p| >= 2 && p[1] !in EDGE_LETTERS && AnchorFreeText(p[2..])
    else p[0] != CARET && p[0] != DOLLAR && AnchorFreeText(p[1..])
  }

  method PatternIsAnchorFree(pattern: bytes) returns (free: bool)
    ensures free == AnchorFreeText(pattern)
  {
    var i := 0;
    while i < |pattern|
      invariant 0 <= i <= |pattern|
      invariant AnchorFreeText(pattern) == AnchorFreeText(pattern[i..])
    {
      if pattern[i] == BACKSLASH {
        if i + 1 >= |pattern| || pattern[i + 1] in EDGE_LETTERS {
          return false;
        }
        assert pattern[i..][2..] == pattern[i + 2..];
        i := i + 2;
      } else if pattern[i] == CARET || pattern[i] == DOLLAR {
        return false;
      } else {
        assert pattern[i..][1..] == pattern[i + 1..];
        i := i + 1;
      }
    }
    return true;
  }

  predicate AtomShows(a: ClassAtom) {
    match a
    case Raw(b) => b == CARET || b == DOLLAR
    case Quoted(b) => b in EDGE_LETTERS
  }

  predicate AtomsShow(atoms: seq<ClassAtom>) {
    exists i | 0 <= i < |atoms| :: AtomShows(atoms[i])
  }

  /** The spelling of the tree shows an anchor, or a character class with a bare
      `^` or `$` or an escaped edge letter in it. */
  predicate ShowsAnchor(t: Ast) {
    match t
    case LineEdge(_) => true
    case TextEdge(_) => true
    case Escaped(_) => false
    case Bracket(atoms, _) => AtomsShow(atoms)
    case Repeat(sub, _, _, _) => ShowsAnchor(sub)
    case Group(_, sub) => ShowsAnchor(sub)
    case Then(left, right) => ShowsAnchor(left) || ShowsAnchor(right)
    case Or(left, right) => ShowsAnchor(left) || ShowsAnchor(right)
    case _ => false
  }

  lemma {:induction false} PlainScan(s: bytes, rest: bytes)
    requires Plain(s)
    ensures AnchorFreeText(s + rest) == AnchorFreeText(rest)
  {
    if s == [] {
      assert s + rest == rest;
    } else {
      assert (s + rest)[1..] == s[1..] + rest;
      PlainScan(s[1..], rest);
    }
  }

  lemma EscapeScan(b: byte, rest: bytes)
    ensures AnchorFreeText([BACKSLASH, b] + rest) == (b !in EDGE_LETTERS && AnchorFreeText(rest))
  {
    assert ([BACKSLASH, b] + rest)[2..] == rest;
  }

  lemma ByteScan(b: byte, rest: bytes)
    requires b != BACKSLASH
    ensures AnchorFreeText([b] + rest) == (b != CARET && b != DOLLAR && AnchorFreeText(rest))
  {
    assert ([b] + rest)[1..] == rest;
  }

  lemma {:induction false} AtomsScan(atoms: seq<ClassAtom>, rest: bytes)
    requires WellSpelledAtoms(atoms)
    ensures AnchorFreeText(SpellAtoms(atoms) + rest) == (!AtomsShow(atoms) && AnchorFreeText(rest))
  {
    hide AnchorFreeText;
    if atoms == [] {
      assert SpellAtoms(atoms) + rest == rest;
    } else {
      var tail := SpellAtoms(atoms[1..]) + rest;
      AtomsScan(atoms[1..], rest);
      assert atoms == [atoms[0]] + atoms[1..];
      match atoms[0] {
        case Raw(b) =>
          Regroup([b], SpellAtoms(atoms[1..]), rest);
          ByteScan(b, tail);
        case Quoted(b) =>
          Regroup([BACKSLASH, b], SpellAtoms(atoms[1..]), rest);
          EscapeScan(b, tail);
      }
    }
  }

  /** The scan keeps in step with the syntax: run over a spelled tree and any
      text after it, it stops exactly at what the tree shows. */
  lemma {:induction false} ScanFollowsSyntax(t: Ast, rest: bytes)
    requires WellSpelled(t)
    ensures AnchorFreeText(Spell(t) + rest) == (!ShowsAnchor(t) && AnchorFreeText(rest))
  {
    hide AnchorFreeText;
    match t
    case Nothing =>
      assert Spell(t) + rest == rest;
    case Verbatim(text, _) =>
      PlainScan(text, rest);
    case Escaped(b) =>
      EscapeScan(b, rest);
    case Dot =>
      PlainScan([46], rest);
    case LineEdge(end) =>
      ByteScan(if end then DOLLAR else CARET, rest);
    case TextEdge(end) =>
      EscapeScan(if end then 122 else 65, rest);
    case WordEdge(letter, tail, _) =>
      Regroup([BACKSLASH, letter], tail, rest);
      EscapeScan(letter, tail + rest);
      PlainScan(tail, rest);
    case Shorthand(letter, tail, _) =>
      Regroup([BACKSLASH, letter], tail, rest);
      EscapeScan(letter, tail + rest);
      PlainScan(tail, rest);
    case Bracket(atoms, _) =>
      Regroup([91], SpellAtoms(atoms) + [93], rest);
      Regroup(SpellAtoms(atoms), [93], rest);
      PlainScan([91], SpellAtoms(atoms) + ([93] + rest));
      AtomsScan(atoms, [93] + rest);
      PlainScan([93], rest);
    case Repeat(sub, op, _, _) =>
      Regroup(Spell(sub), op, rest);
      ScanFollowsSyntax(sub, op + rest);
      PlainScan(op, rest);
    case Group(open, sub) =>
      Regroup(open, Spell(sub) + [41], rest);
      Regroup(Spell(sub), [41], rest);
      PlainScan(open, Spell(sub) + ([41] + rest));
      ScanFollowsSyntax(sub, [41] + rest);
      PlainScan([41], rest);
    case Then(left, right) =>
      Regroup(Spell(left), Spell(right), rest);
      ScanFollowsSyntax(left, Spell(right) + rest);
      ScanFollowsSyntax(right, rest);
    case Or(left, right) =>
      Regroup(Spell(left), [124] + Spell(right), rest);
      Regroup([124], Spell(right), rest);
      ScanFollowsSyntax(left, [124] + (Spell(right) + rest));
      PlainScan([124], Spell(right) + rest);
      ScanFollowsSyntax(right, rest);
  }

  /** The byte scan of a pattern answers for its syntax tree, exactly. */
  lemma ScanIsExact(t: Ast)
    requires WellSpelled(t)
    ensures AnchorFreeText(Spell(t)) <==> !ShowsAnchor(t)
  {
    ScanFollowsSyntax(t, []);
    assert Spell(t) + [] == Spell(t);
  }

  lemma {:induction false} LowerKeepsAnchorFreedom(t: Ast, f: Flags)
    requires !ShowsAnchor(t)
    ensures AnchorFree(Lower(t, f))
  {
    match t
    case Repeat(sub, _, _, _) => LowerKeepsAnchorFreedom(sub, f);
    case Group(_, sub) => LowerKeepsAnchorFreedom(sub, f);
    case Then(left, right) =>
      LowerKeepsAnchorFreedom(left, f);
      LowerKeepsAnchorFreedom(right, f);
    case Or(left, right) =>
      LowerKeepsAnchorFreedom(left, f);
      LowerKeepsAnchorFreedom(right, f);
    case _ =>
  }

  /** A pattern that passes the scan means an expression without anchors. */
  lemma AnchorFreePattern(t: Ast, f: Flags)
    requires WellSpelled(t) && AnchorFreeText(Spell(t))
    ensures AnchorFree(Lower(t, f))
  {
    ScanIsExact(t);
    LowerKeepsAnchorFreedom(t, f);
  }

  /** The newline analysis, read off the syntax tree. */
  predicate TreeMayMatchNewline(t: Ast, dotall: bool) {
    match t
    case Nothing => false
    case Verbatim(text, _) => NL in text
    case Escaped(b) => b == NL
    case Dot => dotall
    case LineEdge(_) => true
    case TextEdge(_) => true
    case WordEdge(_, _, _) => false
    case Shorthand(_, _, points) => InRanges(points.unicode, NL)
    case Bracket(_, points) => InRanges(points.unicode, NL)
    case Repeat(sub, _, _, _) => TreeMayMatchNewline(sub, dotall)
    case Group(_, sub) => TreeMayMatchNewline(sub, dotall)
    case Then(left, right) => TreeMayMatchNewline(left, dotall) || TreeMayMatchNewline(right, dotall)
    case Or(left, right) => TreeMayMatchNewline(left, dotall) || TreeMayMatchNewline(right, dotall)
  }

  lemma {:induction false} AnalysisOfTree(t: Ast, f: Flags)
    requires WellSpelled(t)
    ensures CanMatchNewline(Lower(t, f)) == TreeMayMatchNewline(t, f.dotall)
  {
    hide InRanges;
    match t
    case Verbatim(text, folded) =>
      ClassesNewline(if f.unicode then folded.unicode else folded.ascii, f);
    case Dot =>
      DotNewline(f);
    case Repeat(sub, _, _, _) => AnalysisOfTree(sub, f);
    case Group(_, sub) => AnalysisOfTree(sub, f);
    case Then(left, right) =>
      AnalysisOfTree(left, f);
      AnalysisOfTree(right, f);
      PairNewline(Lower(left, f), Lower(right, f));
    case Or(left, right) =>
      AnalysisOfTree(left, f);
      AnalysisOfTree(right, f);
      PairNewline(Lower(left, f), Lower(right, f));
    case _ =>
  }

  lemma ClassesNewline(classes: seq<Ranges>, f: Flags)
    ensures CanMatchNewline(Concat(Classes(classes, f))) <==> SomeHoldsNewline(classes)
  {
    hide InRanges;
    var subs := Classes(classes, f);
    forall i | 0 <= i < |classes|
      ensures CanMatchNewline(subs[i]) <==> InRanges(classes[i], NL)
    {
      assert subs[i] == Class(classes[i], f);
    }
  }

  lemma DotNewline(f: Flags)
    ensures InRanges(DotRanges(f), NL) <==> f.dotall
  {
    var ranges := DotRanges(f);
    assert f.dotall ==> ranges[0].0 <= NL <= ranges[0].1;
  }

  lemma PairNewline(x: Hir, y: Hir)
    ensures CanMatchNewline(Concat([x, y])) == (CanMatchNewline(x) || CanMatchNewline(y))
    ensures CanMatchNewline(Alternation([x, y])) == (CanMatchNewline(x) || CanMatchNewline(y))
  {
    var subs := [x, y];
    assert subs[0] == x && subs[1] == y;
  }

  /** The analysis parses the pattern again, with `multi_line` on, case not ignored
      and Unicode on. It gives the answer the compiled expression would give,
      whatever that was compiled with. */
  lemma NewlineAnalysisIgnoresFlags(t: Ast, f: Flags)
    requires WellSpelled(t)
    ensures CanMatchNewline(Lower(t, AnalysisFlags(f))) == CanMatchNewline(Lower(t, f))
  {
    AnalysisOfTree(t, AnalysisFlags(f));
    AnalysisOfTree(t, f);
  }

  // ---------------------------------------------------------------------------
  // What some trees match

  /** `^` and `$` hold at the ends of the text, and in multi-line mode beside newlines. */
  lemma EdgeMeaning(words: WordTable, end: bool, f: Flags, hay: bytes, p: nat)
    requires p <= |hay|
    ensures Matches(words, Lower(LineEdge(end), f), hay, p, p)
       <==> if end then p == |hay| || (f.multiLine && hay[p] == NL)
            else p == 0 || (f.multiLine && hay[p - 1] == NL)
  {
  }

  /** `\b` without Unicode holds between a byte of a word and one that is none, or an end. */
  lemma BoundaryMeaning(words: WordTable, letter: byte, tail: bytes, f: Flags, hay: bytes, p: nat)
    requires p <= |hay| && !f.unicode
    ensures Matches(words, Lower(WordEdge(letter, tail, Boundary), f), hay, p, p)
       <==> (p > 0 && AsciiWord([hay[p - 1]])) != (p < |hay| && AsciiWord([hay[p]]))
  {
    if p > 0 {
      OneByte(hay, p - 1);
      assert WordSlice(words, false, hay, p - 1, p) <==> AsciiWord([hay[p - 1]]);
    }
    if p < |hay| {
      OneByte(hay, p);
      assert WordSlice(words, false, hay, p, p + 1) <==> AsciiWord([hay[p]]);
    }
  }

  /** `b{min,max}` matches the runs of `b` whose length is within the bounds. */
  lemma RepeatMeaning(words: WordTable, b: byte, op: bytes, min: nat, max: Option<nat>, f: Flags,
                      hay: bytes, s: nat, e: nat)
    requires s <= e <= |hay|
    ensures Matches(words, Lower(Repeat(Escaped(b), op, min, max), f), hay, s, e)
       <==> min <= e - s && (max.Some? ==> e - s <= max.value) && forall i | s <= i < e :: hay[i] == b
  {
    hide InBounds, MatchesTimes;
    forall k: nat
      ensures MatchesTimes(words, Literal([b]), k, hay, s, e) <==> k == e - s && forall i | s <= i < e :: hay[i] == b
    {
      RunOfBytes(words, b, Literal([b]), k, hay, s, e);
    }
    WithinBounds(min, max, e - s);
  }

  lemma WithinBounds(min: nat, max: Option<nat>, k: nat)
    ensures InBounds(min, max, k) <==> min <= k && (max.Some? ==> k <= max.value)
  {
  }

  lemma FirstOfTimes(words: WordTable, h: Hir, k: nat, hay: bytes, s: nat, e: nat) returns (m: nat)
    requires s <= e <= |hay| && k > 0 && MatchesTimes(words, h, k, hay, s, e)
    ensures s <= m <= e && Matches(words, h, hay, s, m) && MatchesTimes(words, h, k - 1, hay, m, e)
  {
    m :| s <= m <= e && Matches(words, h, hay, s, m) && MatchesTimes(words, h, k - 1, hay, m, e);
  }

  lemma {:induction false} RunOfBytes(words: WordTable, b: byte, h: Hir, k: nat, hay: bytes, s: nat, e: nat)
    requires s <= e <= |hay| && h == Literal([b])
    ensures MatchesTimes(words, h, k, hay, s, e) <==> k == e - s && forall i | s <= i < e :: hay[i] == b
  {
    if k > 0 {
      if MatchesTimes(words, h, k, hay, s, e) {
        var m := FirstOfTimes(words, h, k, hay, s, e);
        assert hay[s..m] == [b];
        assert |hay[s..m]| == 1 && hay[s..m][0] == hay[s];
        RunOfBytes(words, b, h, k - 1, hay, m, e);
      }
      if s < e && hay[s] == b {
        OneByte(hay, s);
        assert Matches(words, h, hay, s, s + 1);
        RunOfBytes(words, b, h, k - 1, hay, s + 1, e);
      }
    }
  }
}
