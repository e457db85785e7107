/** What `--passthru` prints in all without blocks: every line, as it is or
    rewritten. */
module LineOutput {
  import opened Bytes
  import opened Blocks
  import opened FileMatching
  import opened LineIndexing
  import opened Matchers
  import opened Rewriting
  import opened Traversal
  import opened WholeOutput
  import EmitBlocks
  import Prescan

  /** What a line shows: itself, or its text with every match replaced when it has
      a hit with spans and replacements are not reported beside it. */
  function ShownText(fm: FileMatches, opts: MatchOptions, m: Matcher, expand: Expander, li: nat): bytes
    requires Listed(fm) && m.Valid()
  {
    var line := fm.index.LineText(li);
    if HitAt(fm.hits, li, 0).Some? && IsRewritten(fm, opts, HitAt(fm.hits, li, 0).value) then
      LineExpansionsInOrder(m, expand, opts.replace.value, line);
      Rewrite(line, 0, Expansions(m, expand, opts.replace.value, line), |line|)
    else line
  }

  predicate IsRewritten(fm: FileMatches, opts: MatchOptions, k: nat)
    requires k < |fm.hits|
  {
    |fm.replacements| <= k && fm.hits[k].spans != [] && opts.replace.Some?
  }

  function Terminator(index: LineIndex, li: nat): bytes
    requires index.Valid()
  {
    index.content[index.LineEnd(li)..index.LineStart(li + 1)]
  }

  /** The first `n` of a row of texts. */
  function Texts(texts: nat -> bytes, n: nat): bytes {
    if n == 0 then [] else Texts(texts, n - 1) + texts(n - 1)
  }

  /** A line as shown, with its own terminator. */
  function ShownLine(fm: FileMatches, opts: MatchOptions, m: Matcher, expand: Expander, li: nat): bytes
    requires Listed(fm) && m.Valid()
  {
    ShownText(fm, opts, m, expand, li) + Terminator(fm.index, li)
  }

  /** All lines as shown. */
  function ShownLines(fm: FileMatches, opts: MatchOptions, m: Matcher, expand: Expander): bytes
    requires Listed(fm) && m.Valid()
  {
    Texts((li: nat) => ShownLine(fm, opts, m, expand, li), fm.index.LineCount())
  }

  lemma EventPrints(index: LineIndex, li: nat, e: EmitBlocks.Emit)
    requires index.Valid() && li < index.LineCount() && e.terminatorLen == index.LineTerminatorLen(li)
    ensures Prints([e], e.content + Terminator(index, li))
  {
    hide IsLineTable, Prints;
    var t := LineTerminator(index, li);
    PrintsNothing([]);
    PrintsSnoc([], [], e, t);
    assert [] + [e] == [e] && [] + (e.content + t) == e.content + t;
  }

  /** A line's events print what the line shows. */
  lemma LineEventsPrint(fm: FileMatches, opts: MatchOptions, m: Matcher, expand: Expander, li: nat)
    requires Listed(fm) && m.Valid() && li < fm.index.LineCount() && !opts.onlyMatching
    ensures Prints(LineEvents(fm, opts, m, expand, li), ShownLine(fm, opts, m, expand, li))
  {
    hide IsLineTable, HitsListed, BlocksListed, Prints, Expansions, Rewrite, InOrder, LandingsOf, Matcher.Valid;
    match HitAt(fm.hits, li, 0)
    case None =>
      EventPrints(fm.index, li, ContextLine(fm.index, li));
    case Some(k) =>
      HitShowsLine(fm, opts, m, expand, k);
      EventPrints(fm.index, li, HitRows(fm, opts, m, expand, k)[0]);
  }

  lemma HitShowsLine(fm: FileMatches, opts: MatchOptions, m: Matcher, expand: Expander, k: nat)
    requires Listed(fm) && m.Valid() && k < |fm.hits| && !opts.onlyMatching
    ensures |HitRows(fm, opts, m, expand, k)| == 1
    ensures HitRows(fm, opts, m, expand, k)[0].terminatorLen == fm.index.LineTerminatorLen(fm.hits[k].idx)
    ensures HitRows(fm, opts, m, expand, k)[0].content == ShownText(fm, opts, m, expand, fm.hits[k].idx)
  {
    hide IsLineTable, BlocksListed, Expansions, Rewrite, InOrder, LandingsOf, Matcher.Valid;
    HitFound(fm, k);
  }

  lemma HitFound(fm: FileMatches, k: nat)
    requires Listed(fm) && k < |fm.hits|
    ensures HitAt(fm.hits, fm.hits[k].idx, 0) == Some(k)
  {
    hide IsLineTable, BlocksListed;
  }

  /** Under `--passthru` the lines walked are all lines. */
  lemma EveryLineWalked(fm: FileMatches, opts: MatchOptions, lines: seq<nat>)
    requires opts.passthru && ShownBelow(fm, opts, lines, fm.index.LineCount())
    ensures |lines| == fm.index.LineCount() && forall k | 0 <= k < |lines| :: lines[k] == k
  {
    var all := Prescan.LinesFrom(0, fm.index.LineCount());
    forall li: nat
      ensures li in all <==> li < fm.index.LineCount()
    {
      assert li < |all| ==> all[li] == li;
    }
    AscendingUnique(lines, all);
  }

  /** Parts that each print a text print the texts one after the other. */
  lemma {:induction false} PartsPrint(parts: seq<seq<EmitBlocks.Emit>>, texts: nat -> bytes, n: nat)
    requires n <= |parts| && forall k | 0 <= k < |parts| :: Prints(parts[k], texts(k))
    ensures Prints(Flatten(parts[..n]), Texts(texts, n))
  {
    hide Prints, Flatten;
    if n == 0 {
      PrintsNothing([]);
      NoParts(parts);
    } else {
      PartsPrint(parts, texts, n - 1);
      PrintsAppend(Flatten(parts[..n - 1]), Texts(texts, n - 1), parts[n - 1], texts(n - 1));
      assert parts[..n] == parts[..n - 1] + [parts[n - 1]];
      FlattenSnoc(parts[..n - 1], parts[n - 1]);
    }
  }

  /** Whatever `--passthru` emits by lines, shown one event after the other with
      terminators, is every line of the buffer: rewritten where `-r` applies, as it
      is everywhere else. */
  lemma PassthruPrintsLines(fm: FileMatches, m: Matcher, opts: MatchOptions, expand: Expander,
                            events: seq<EmitBlocks.Emit>)
    requires Listed(fm) && m.Valid() && opts.passthru && !opts.onlyMatching
    requires IsLineOutput(fm, opts, m, expand, events)
    ensures Prints(events, ShownLines(fm, opts, m, expand))
  {
    hide IsLineTable, HitsListed, BlocksListed, ShownBelow, Prints, Flatten, LineEvents, ShownLine, Texts,
         Matcher.Valid;
    var lines, parts :|
      IsWalk(fm, opts, m, expand, lines, parts, fm.index.LineCount()) && events == Flatten(parts);
    EveryLineWalked(fm, opts, lines);
    var texts := (li: nat) => ShownLine(fm, opts, m, expand, li);
    forall k | 0 <= k < |parts|
      ensures Prints(parts[k], texts(k))
    {
      LineEventsPrint(fm, opts, m, expand, k);
    }
    PartsPrint(parts, texts, |parts|);
    assert parts[..|parts|] == parts;
  }

  lemma {:induction false} UnrewrittenLines(index: LineIndex, texts: nat -> bytes, n: nat)
    requires index.Valid() && forall li: nat :: texts(li) == index.LineText(li) + Terminator(index, li)
    ensures Texts(texts, n) == index.Reassembled(n)
  {
    hide IsLineTable, LineIndex.LineText, LineIndex.LineStart, LineIndex.LineEnd;
    if n > 0 {
      UnrewrittenLines(index, texts, n - 1);
      Regroup(index.Reassembled(n - 1), index.LineText(n - 1), Terminator(index, n - 1));
    }
  }

  /** Without `-r` that is the buffer. */
  lemma PassthruPrintsBuffer(fm: FileMatches, m: Matcher, opts: MatchOptions, expand: Expander,
                             events: seq<EmitBlocks.Emit>)
    requires Listed(fm) && m.Valid() && opts.passthru && !opts.onlyMatching && opts.replace == None
    requires IsLineOutput(fm, opts, m, expand, events)
    ensures Prints(events, fm.index.content)
  {
    hide IsLineTable, HitsListed, BlocksListed, IsLineOutput, Prints, Texts, Matcher.Valid, HitAt;
    PassthruPrintsLines(fm, m, opts, expand, events);
    UnrewrittenLines(fm.index, (li: nat) => ShownLine(fm, opts, m, expand, li), fm.index.LineCount());
    fm.index.LinesCoverContent();
  }
}
