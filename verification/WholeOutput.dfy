/** What `-U --replace --passthru` prints in all: the buffer with its matches
    replaced. */
module WholeOutput {
  import opened Bytes
  import opened Blocks
  import opened FileMatching
  import opened LineIndexing
  import opened Matchers
  import opened Rewriting
  import opened Spans
  import opened Traversal
  import BlockOutput
  import Cursors
  import EmitBlocks

  // ---------------------------------------------------------------------------
  // Nothing is left out and nothing comes twice

  /** Under `--passthru` every line is on an item of the tour. */
  lemma PassthruCovers(fm: FileMatches, opts: MatchOptions, items: seq<Item>, li: nat) returns (i: nat)
    requires BlocksApart(fm.blocks, fm.index.LineCount()) && opts.passthru && li < fm.index.LineCount()
    requires IsTour(fm, opts, items, fm.index.LineCount())
    ensures i < |items| && OnTour(fm, opts, items[i])
    ensures FirstOf(fm.blocks, items[i]) <= li <= LastOf(fm.blocks, items[i])
  {
    if InSomeBlock(fm.blocks, li) {
      var k :| 0 <= k < |fm.blocks| && InBlock(fm.blocks[k], li);
      assert BlockItem(k) in items;
      i :| 0 <= i < |items| && items[i] == BlockItem(k);
    } else {
      assert ShownOutside(fm, opts, li);
      assert LineItem(li) in items;
      i :| 0 <= i < |items| && items[i] == LineItem(li);
    }
  }

  /** Each line is on one item only. */
  lemma OneItemALine(fm: FileMatches, opts: MatchOptions, items: seq<Item>, i: nat, j: nat, li: nat)
    requires IsTour(fm, opts, items, fm.index.LineCount()) && i < |items| && j < |items|
    requires FirstOf(fm.blocks, items[i]) <= li <= LastOf(fm.blocks, items[i])
    requires FirstOf(fm.blocks, items[j]) <= li <= LastOf(fm.blocks, items[j])
    ensures i == j
  {
    hide ShownOutside;
  }

  ghost predicate OnBlocks(blocks: seq<ReplaceBlock>, items: seq<Item>) {
    forall k | 0 <= k < |items| && items[k].BlockItem? :: items[k].k < |blocks|
  }

  lemma TourBlocks(fm: FileMatches, opts: MatchOptions, items: seq<Item>, bound: nat)
    requires IsTour(fm, opts, items, bound)
    ensures OnBlocks(fm.blocks, items)
    ensures forall k | 0 <= k < |items| && items[k].LineItem? :: !InSomeBlock(fm.blocks, items[k].li)
  {
    hide NearBlock, InSomeBlock;
    forall k | 0 <= k < |items|
      ensures items[k].BlockItem? ==> items[k].k < |fm.blocks|
      ensures items[k].LineItem? ==> !InSomeBlock(fm.blocks, items[k].li)
    {
      assert OnTour(fm, opts, items[k]);
    }
  }

  /** The line after the first `n` items. */
  ghost function Bound(blocks: seq<ReplaceBlock>, items: seq<Item>, n: nat): nat
    requires n <= |items| && OnBlocks(blocks, items)
  {
    if n == 0 then 0 else LastOf(blocks, items[n - 1]) + 1
  }

  /** Each item starts right after the one before it. */
  lemma Contiguous(fm: FileMatches, opts: MatchOptions, items: seq<Item>, n: nat)
    requires BlocksApart(fm.blocks, fm.index.LineCount()) && opts.passthru && n <= |items|
    requires IsTour(fm, opts, items, fm.index.LineCount()) && OnBlocks(fm.blocks, items)
    ensures Bound(fm.blocks, items, n) <= fm.index.LineCount()
    ensures n < |items| ==> FirstOf(fm.blocks, items[n]) == Bound(fm.blocks, items, n)
    ensures n == |items| ==> Bound(fm.blocks, items, n) == fm.index.LineCount()
  {
    hide ShownOutside;
    var bound := Bound(fm.blocks, items, n);
    assert n < |items| ==> FirstOf(fm.blocks, items[n]) <= LastOf(fm.blocks, items[n]);
    if bound < fm.index.LineCount() {
      var i := PassthruCovers(fm, opts, items, bound);
      assert n > 0 ==> FirstOf(fm.blocks, items[n - 1]) < bound;
      assert i >= n;
    }
  }

  // ---------------------------------------------------------------------------
  // What is printed

  /** The bytes an item stands for: a block's rewrite, or a line as it is. */
  function ItemText(fm: FileMatches, it: Item): bytes
    requires fm.index.Valid() && (it.BlockItem? ==> it.k < |fm.blocks|)
  {
    match it
    case BlockItem(k) => fm.blocks[k].text
    case LineItem(li) => fm.index.content[fm.index.LineStart(li)..fm.index.LineStart(li + 1)]
  }

  ghost function Printed(fm: FileMatches, items: seq<Item>, n: nat): bytes
    requires fm.index.Valid() && n <= |items| && OnBlocks(fm.blocks, items)
  {
    if n == 0 then [] else Printed(fm, items, n - 1) + ItemText(fm, items[n - 1])
  }

  /** `c` blocks lie before line `bound`, and the rest do not start before it. */
  ghost predicate Before(blocks: seq<ReplaceBlock>, c: nat, bound: nat) {
    && c <= |blocks|
    && (forall j | 0 <= j < c :: blocks[j].last < bound)
    && (c < |blocks| ==> bound <= blocks[c].first)
  }

  /** Each block's text is its lines with its matches replaced. */
  ghost predicate AreRewrites(index: LineIndex, blocks: seq<ReplaceBlock>, members: seq<seq<Expansion>>)
    requires index.Valid()
  {
    |members| == |blocks| && forall k | 0 <= k < |blocks| :: IsRewrite(index, blocks[k], members[k])
  }

  ghost predicate IsRewrite(index: LineIndex, b: ReplaceBlock, members: seq<Expansion>)
    requires index.Valid()
  {
    && InOrder(members, index.LineStart(b.first), index.LineStart(b.last + 1))
    && b.text == Rewrite(index.content, index.LineStart(b.first), members, index.LineStart(b.last + 1))
  }

  lemma BlocksAreRewrites(index: LineIndex, blocks: seq<ReplaceBlock>, members: seq<seq<Expansion>>,
                          reps: seq<Expansion>)
    requires index.Valid() && AreBlocks(index, blocks, members, reps)
    ensures AreRewrites(index, blocks, members) && Flatten(members) == reps
  {
    hide IsLineTable, Rewrite, InOrder, Flatten, IsGroup;
    forall k | 0 <= k < |blocks|
      ensures IsRewrite(index, blocks[k], members[k])
    {
      BlockText(index, blocks[k], members[k]);
    }
  }

  /** What is printed for the lines before `bound` is the rewrite of those lines. */
  ghost predicate Rewritten(fm: FileMatches, members: seq<seq<Expansion>>, printed: bytes, c: nat, bound: nat)
    requires fm.index.Valid()
  {
    && Before(fm.blocks, c, bound) && c <= |members|
    && InOrder(Flatten(members[..c]), 0, fm.index.LineStart(bound))
    && printed == Rewrite(fm.index.content, 0, Flatten(members[..c]), fm.index.LineStart(bound))
  }

  lemma NothingRewritten(fm: FileMatches, members: seq<seq<Expansion>>)
    requires fm.index.Valid()
    ensures Rewritten(fm, members, [], 0, 0)
  {
    NothingFlattened(members);
    assert fm.index.LineStart(0) == 0 by {
      assert 0 < |fm.index.starts| ==> IsLine(fm.index.content, fm.index.starts, 0);
    }
    RewriteNothing(fm.index.content, 0, 0);
  }

  lemma LineRewritten(fm: FileMatches, members: seq<seq<Expansion>>, printed: bytes, c: nat, li: nat)
    requires fm.index.Valid() && BlocksApart(fm.blocks, fm.index.LineCount())
    requires Rewritten(fm, members, printed, c, li) && !InSomeBlock(fm.blocks, li)
    ensures Rewritten(fm, members, printed + ItemText(fm, LineItem(li)), c, li + 1)
  {
    hide IsLineTable, Rewrite, InOrder, Flatten;
    assert c < |fm.blocks| ==> !InBlock(fm.blocks[c], li);
    LineStartMonotone(fm.index, li, li + 1);
    RewriteExtends(fm.index.content, 0, Flatten(members[..c]), fm.index.LineStart(li), fm.index.LineStart(li + 1));
  }

  lemma BlockRewritten(fm: FileMatches, members: seq<seq<Expansion>>, printed: bytes, c: nat, k: nat)
    requires fm.index.Valid() && BlocksApart(fm.blocks, fm.index.LineCount())
    requires AreRewrites(fm.index, fm.blocks, members) && k < |fm.blocks|
    requires Rewritten(fm, members, printed, c, fm.blocks[k].first)
    ensures c == k && Rewritten(fm, members, printed + fm.blocks[k].text, k + 1, fm.blocks[k].last + 1)
  {
    hide IsLineTable, Rewrite, InOrder, Flatten;
    var b := fm.blocks[k];
    assert IsRewrite(fm.index, b, members[k]);
    LineStartMonotone(fm.index, b.first, b.last + 1);
    RewriteSplits(fm.index.content, 0, Flatten(members[..k]), fm.index.LineStart(b.first), members[k],
                  fm.index.LineStart(b.last + 1));
    assert members[..k + 1] == members[..k] + [members[k]];
    FlattenSnoc(members[..k], members[k]);
  }

  lemma {:induction false} PrefixRewritten(fm: FileMatches, opts: MatchOptions, members: seq<seq<Expansion>>,
                                           items: seq<Item>, n: nat)
      returns (c: nat)
    requires fm.index.Valid() && BlocksApart(fm.blocks, fm.index.LineCount())
    requires AreRewrites(fm.index, fm.blocks, members)
    requires opts.passthru && IsTour(fm, opts, items, fm.index.LineCount())
    requires n <= |items| && OnBlocks(fm.blocks, items)
    ensures Rewritten(fm, members, Printed(fm, items, n), c, Bound(fm.blocks, items, n))
  {
    hide IsLineTable, BlocksApart, IsTour, Rewritten, AreRewrites, InSomeBlock, ItemText;
    if n == 0 {
      c := 0;
      NothingRewritten(fm, members);
    } else {
      c := PrefixRewritten(fm, opts, members, items, n - 1);
      Contiguous(fm, opts, items, n - 1);
      TourBlocks(fm, opts, items, fm.index.LineCount());
      c := ItemRewritten(fm, members, Printed(fm, items, n - 1), c, items[n - 1]);
    }
  }

  lemma ItemRewritten(fm: FileMatches, members: seq<seq<Expansion>>, printed: bytes, c: nat, it: Item)
      returns (c': nat)
    requires fm.index.Valid() && BlocksApart(fm.blocks, fm.index.LineCount())
    requires AreRewrites(fm.index, fm.blocks, members) && (it.BlockItem? ==> it.k < |fm.blocks|)
    requires it.LineItem? ==> !InSomeBlock(fm.blocks, it.li)
    requires Rewritten(fm, members, printed, c, FirstOf(fm.blocks, it))
    ensures Rewritten(fm, members, printed + ItemText(fm, it), c', LastOf(fm.blocks, it) + 1)
  {
    hide IsLineTable, BlocksApart, Rewritten, AreRewrites, InSomeBlock;
    match it
    case LineItem(li) =>
      LineRewritten(fm, members, printed, c, li);
      c' := c;
    case BlockItem(k) =>
      BlockRewritten(fm, members, printed, c, k);
      c' := k + 1;
  }

  /** The texts of all items in the order of the tour are the whole buffer with every
      match of the blocks replaced. */
  lemma ItemsAreRewrite(fm: FileMatches, opts: MatchOptions, members: seq<seq<Expansion>>, items: seq<Item>)
    requires fm.index.Valid() && BlocksApart(fm.blocks, fm.index.LineCount())
    requires AreRewrites(fm.index, fm.blocks, members)
    requires opts.passthru && IsTour(fm, opts, items, fm.index.LineCount())
    ensures OnBlocks(fm.blocks, items) && InOrder(Flatten(members), 0, |fm.index.content|)
    ensures Printed(fm, items, |items|) == Rewrite(fm.index.content, 0, Flatten(members), |fm.index.content|)
  {
    hide IsLineTable, BlocksApart, IsTour, IsRewrite, Rewrite, InOrder, Flatten;
    TourBlocks(fm, opts, items, fm.index.LineCount());
    Contiguous(fm, opts, items, |items|);
    var c := PrefixRewritten(fm, opts, members, items, |items|);
    AllBlocksBefore(fm, c);
    assert members[..c] == members;
  }

  /** When the tour is over, all blocks are done and the buffer is used up. */
  lemma AllBlocksBefore(fm: FileMatches, c: nat)
    requires fm.index.Valid() && BlocksApart(fm.blocks, fm.index.LineCount())
    requires Before(fm.blocks, c, fm.index.LineCount())
    ensures c == |fm.blocks|
    ensures fm.index.LineStart(fm.index.LineCount()) == |fm.index.content|
  {
    hide IsLineTable;
  }

  // ---------------------------------------------------------------------------
  // Events as text

  predicate IsTerminator(t: bytes) {
    t == [] || t == [NL] || t == [CR] || t == [CR, NL]
  }

  /** `text` is `init` and then what `e` shows: its content and as many terminator
      bytes as it reports. */
  ghost predicate EndsWith(text: bytes, init: bytes, e: EmitBlocks.Emit, t: bytes) {
    IsTerminator(t) && |t| == e.terminatorLen && text == init + (e.content + t)
  }

  /** Shown one after the other, each with its terminator, `events` are `text`. */
  ghost predicate Prints(events: seq<EmitBlocks.Emit>, text: bytes)
    decreases |events|
  {
    if events == [] then text == []
    else exists init, t :: LastIs(text, init, events, t) && Prints(events[..|events| - 1], init)
  }

  ghost predicate LastIs(text: bytes, init: bytes, events: seq<EmitBlocks.Emit>, t: bytes) {
    events != [] && EndsWith(text, init, events[|events| - 1], t)
  }

  lemma PrintsSnoc(events: seq<EmitBlocks.Emit>, text: bytes, e: EmitBlocks.Emit, t: bytes)
    requires Prints(events, text) && IsTerminator(t) && |t| == e.terminatorLen
    ensures Prints(events + [e], text + (e.content + t))
  {
    hide IsTerminator;
    var more := events + [e];
    assert more[..|more| - 1] == events && more[|more| - 1] == e;
    assert LastIs(text + (e.content + t), text, more, t);
  }

  lemma PrintsLast(events: seq<EmitBlocks.Emit>, text: bytes) returns (init: bytes, t: bytes)
    requires events != [] && Prints(events, text)
    ensures EndsWith(text, init, events[|events| - 1], t) && Prints(events[..|events| - 1], init)
  {
    hide EndsWith;
    init, t :| LastIs(text, init, events, t) && Prints(events[..|events| - 1], init);
  }

  lemma {:induction false} PrintsAppend(a: seq<EmitBlocks.Emit>, x: bytes, b: seq<EmitBlocks.Emit>, y: bytes)
    requires Prints(a, x) && Prints(b, y)
    ensures Prints(a + b, x + y)
    decreases |b|
  {
    hide Prints, IsTerminator;
    if b == [] {
      PrintsNothing(y);
      assert a + b == a && x + y == x;
    } else {
      var n := |b| - 1;
      var init, t := PrintsLast(b, y);
      PrintsAppend(a, x, b[..n], init);
      PrintsSnoc(a + b[..n], x + init, b[n], t);
      assert a + b[..n] + [b[n]] == a + b;
      Regroup(x, init, b[n].content + t);
    }
  }

  lemma PrintsNothing(text: bytes)
    ensures Prints([], text) <==> text == []
  {
  }

  /** A shown line prints itself. */
  lemma LinePrints(fm: FileMatches, li: nat)
    requires fm.index.Valid() && li < fm.index.LineCount()
    ensures Prints([ContextLine(fm.index, li)], ItemText(fm, LineItem(li)))
  {
    hide IsLineTable, Prints;
    var index := fm.index;
    var t := LineTerminator(index, li);
    PrintsNothing([]);
    PrintsSnoc([], [], ContextLine(index, li), t);
    assert [] + [ContextLine(index, li)] == [ContextLine(index, li)];
    SplitSlice(index.content, index.LineStart(li), index.LineEnd(li), index.LineStart(li + 1));
    assert [] + (index.LineText(li) + t) == index.LineText(li) + t;
  }

  lemma LineTerminator(index: LineIndex, li: nat) returns (t: bytes)
    requires index.Valid() && li < index.LineCount()
    ensures t == index.content[index.LineEnd(li)..index.LineStart(li + 1)]
    ensures IsTerminator(t) && |t| == index.LineTerminatorLen(li)
  {
    hide IsLineTable;
    index.LineShape(li);
    t := index.content[index.LineEnd(li)..index.LineStart(li + 1)];
  }

  /** A block's plain rows print its rewritten text. */
  lemma {:induction false} RowsPrint(b: ReplaceBlock, end: nat, rows: seq<Cursors.Row>, n: nat)
    requires EmitBlocks.RowsOf(b, end, rows) && n <= |rows|
    ensures Prints(BlockOutput.PlainRows(b, end, rows)[..n], EmitBlocks.Joined(b, end, rows, n))
  {
    hide Cursors.AreRows, Cursors.Layout, Cursors.SourceAt, EmitBlocks.RowSpans, EmitBlocks.FirstColumn, Prints;
    var events := BlockOutput.PlainRows(b, end, rows);
    if n == 0 {
      PrintsNothing([]);
    } else {
      RowsPrint(b, end, rows, n - 1);
      var e := EmitBlocks.PlainRow(b, end, rows, n - 1);
      var t := TerminatorOf(b, end, rows, n - 1);
      PrintsSnoc(events[..n - 1], EmitBlocks.Joined(b, end, rows, n - 1), e, t);
      assert events[..n] == events[..n - 1] + [e];
      assert EmitBlocks.Joined(b, end, rows, n) == EmitBlocks.Joined(b, end, rows, n - 1) + (e.content + t);
    }
  }

  lemma TerminatorOf(b: ReplaceBlock, end: nat, rows: seq<Cursors.Row>, k: nat) returns (t: bytes)
    requires EmitBlocks.RowsOf(b, end, rows) && k < |rows|
    ensures rows[k].textEnd <= rows[k].end <= |b.text| && t == b.text[rows[k].textEnd..rows[k].end]
    ensures IsTerminator(t) && |t| == EmitBlocks.PlainRow(b, end, rows, k).terminatorLen
  {
    hide Cursors.Layout, Cursors.SourceAt, EmitBlocks.RowSpans, EmitBlocks.FirstColumn;
    EmitBlocks.RowBounds(b, end, rows, k);
    var r := rows[k];
    assert Cursors.IsRow(b.text, r, r.end == |b.text|);
    t := b.text[r.textEnd..r.end];
  }

  /** In plain output a block's events print its rewritten text. */
  lemma BlockPrints(b: ReplaceBlock, opts: MatchOptions, end: nat, events: seq<EmitBlocks.Emit>)
    requires IsBlockEvents(b, opts, end, events) && !opts.onlyMatching && !opts.vimgrep
    ensures Prints(events, b.text)
  {
    hide Cursors.AreRows, Cursors.Layout, EmitBlocks.PlainRow, Prints, EmitBlocks.Joined;
    var rows :| EmitBlocks.RowsOf(b, end, rows)
      && events == if BlockOutput.VisibleRows(b, end, rows, opts) == [] then [BlockOutput.HiddenRow(b)]
                   else BlockOutput.VisibleRows(b, end, rows, opts);
    var visible := BlockOutput.PlainRows(b, end, rows);
    RowsPrint(b, end, rows, |rows|);
    EmitBlocks.PlainRowsJoin(b, end, rows, |rows|);
    assert visible[..|rows|] == visible;
    BlockOutput.HiddenMeaning(b, end, rows, opts);
    if visible == [] {
      PrintsNothing([]);
      PrintsSnoc([], [], BlockOutput.HiddenRow(b), []);
      assert [] + [BlockOutput.HiddenRow(b)] == [BlockOutput.HiddenRow(b)];
      assert b.text == [] + (BlockOutput.HiddenRow(b).content + []);
    }
  }

  lemma ItemPrints(fm: FileMatches, opts: MatchOptions, it: Item, part: seq<EmitBlocks.Emit>)
    requires fm.index.Valid() && IsItem(fm, opts, it, part) && !opts.onlyMatching && !opts.vimgrep
    ensures it.BlockItem? ==> it.k < |fm.blocks|
    ensures Prints(part, ItemText(fm, it))
  {
    hide IsLineTable, IsBlockEvents, Prints;
    match it {
      case BlockItem(k) => BlockPrints(fm.blocks[k], opts, fm.index.LineStart(fm.blocks[k].last + 1), part);
      case LineItem(li) => LinePrints(fm, li);
    }
  }

  /** What is emitted for the first `n` items prints their texts. */
  lemma {:induction false} ItemsPrint(fm: FileMatches, opts: MatchOptions, items: seq<Item>,
                                      parts: seq<seq<EmitBlocks.Emit>>, n: nat)
    requires fm.index.Valid() && Emitted(fm, opts, items, parts) && OnBlocks(fm.blocks, items)
    requires n <= |items| && !opts.onlyMatching && !opts.vimgrep
    ensures Prints(Flatten(parts[..n]), Printed(fm, items, n))
  {
    hide IsLineTable, IsItem, Prints, Flatten, ItemText;
    if n == 0 {
      PrintsNothing([]);
      NoParts(parts);
    } else {
      ItemsPrint(fm, opts, items, parts, n - 1);
      var it, part := items[n - 1], parts[n - 1];
      ItemPrints(fm, opts, it, part);
      PrintsAppend(Flatten(parts[..n - 1]), Printed(fm, items, n - 1), part, ItemText(fm, it));
      assert parts[..n] == parts[..n - 1] + [part];
      FlattenSnoc(parts[..n - 1], part);
    }
  }

  lemma NoParts(parts: seq<seq<EmitBlocks.Emit>>)
    ensures Flatten(parts[..0]) == []
  {
  }

  /** Whatever `-U --replace --passthru` emits, shown one event after the other with
      terminators, is the whole buffer with every kept match replaced. */
  lemma PassthruPrintsRewrite(fm: FileMatches, m: Matcher, opts: MatchOptions, expand: Expander, kept: seq<Span>,
                              members: seq<seq<Expansion>>, events: seq<EmitBlocks.Emit>)
    requires Listed(fm) && m.Valid() && FoundMultiline(fm, m, opts, expand, kept, members)
              && PrintsBlocks(m, opts, kept)
    requires opts.passthru && !opts.onlyMatching && !opts.vimgrep && IsBlockOutput(fm, opts, events)
    ensures var reps := Expansions(m, expand, opts.replace.value, fm.index.content);
            && |kept| <= |reps| && InOrder(reps[..|kept|], 0, |fm.index.content|)
            && Prints(events, Rewrite(fm.index.content, 0, reps[..|kept|], |fm.index.content|))
  {
    hide IsLineTable, HitsListed, BlocksApart, IsSomeBlock, IsTour, IsItem, Expansions, IsKept, LinesOf, IsGrouping,
         AreBlocks, AreRewrites, Rewrite, InOrder, Flatten, Prints;
    var items, parts :| IsBlockWalk(fm, opts, items, parts, fm.index.LineCount()) && events == Flatten(parts);
    var reps := Expansions(m, expand, opts.replace.value, fm.index.content)[..|kept|];
    BlocksAreRewrites(fm.index, fm.blocks, members, reps);
    ItemsAreRewrite(fm, opts, members, items);
    ItemsPrint(fm, opts, items, parts, |items|);
    assert parts[..|items|] == parts;
  }
}
