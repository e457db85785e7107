/** `-U --replace`: runs of whole lines rewritten as a unit. */
module Blocks {
  import opened Bytes
  import opened LineIndexing
  import opened Rewriting
  import opened Spans

  /** A replaced match: its range in the buffer and the range in the block's text that
      stands for it. */
  datatype Placed = Placed(src: Span, dst: Span) {
    function Delta(): int {
      (dst.end - dst.start) - (src.end - src.start)
    }
  }

  /** Source lines `first..=last`, which start at offset `start`, rewritten. */
  datatype ReplaceBlock = ReplaceBlock(first: nat, last: nat, start: nat, text: bytes, reps: seq<Placed>)

  /** Each match starts at most one line after the line the one before it ends on. */
  ghost predicate Joined(index: LineIndex, members: seq<Expansion>)
    requires index.Valid()
  {
    forall k | 0 < k < |members| :: Joins(index, members, k)
  }

  ghost predicate Joins(index: LineIndex, members: seq<Expansion>, k: nat)
    requires index.Valid() && 0 < k < |members|
  {
    FirstLine(index, members[k].at) <= LastLine(index, members[k - 1].at) + 1
  }

  /** The lines `first..=last` are those of `members`, which are joined. */
  ghost predicate IsGroup(index: LineIndex, first: nat, last: nat, members: seq<Expansion>)
    requires index.Valid()
  {
    && members != []
    && first == FirstLine(index, members[0].at)
    && last == LastLine(index, members[|members| - 1].at)
    && Joined(index, members)
    && InOrder(members, index.LineStart(first), index.LineStart(last + 1))
  }

  /** `b` is the block of `members`: their lines, with every match replaced. */
  ghost predicate IsBlock(index: LineIndex, b: ReplaceBlock, members: seq<Expansion>)
    requires index.Valid()
  {
    && IsGroup(index, b.first, b.last, members)
    && b.start == index.LineStart(b.first)
    && b.text == Rewrite(index.content, b.start, members, index.LineStart(b.last + 1))
    && |b.reps| == |members|
    && forall k | 0 <= k < |members| ::
         b.reps[k] == Placed(members[k].at, Landing(index.content, b.start, members, k))
  }

  /** `blocks` are the blocks of `reps`: in order, with at least one line between
      one block and the next. */
  ghost predicate AreBlocks(index: LineIndex, blocks: seq<ReplaceBlock>, members: seq<seq<Expansion>>,
                            reps: seq<Expansion>)
    requires index.Valid()
  {
    && |blocks| == |members|
    && InOrder(reps, 0, |index.content|) && Flatten(members) == reps
    && (forall k | 0 <= k < |blocks| :: IsBlock(index, blocks[k], members[k]))
    && (forall j, k | 0 <= j < k < |blocks| :: blocks[j].last + 1 < blocks[k].first)
  }

  /** A match lies within its own lines. */
  lemma SpanInLines(index: LineIndex, sp: Span)
    requires index.Valid() && sp.start <= sp.end <= |index.content|
    ensures index.LineStart(FirstLine(index, sp)) <= sp.start
    ensures sp.end <= index.LineStart(LastLine(index, sp) + 1)
  {
    if index.content != [] {
      index.LineOfInverts(sp.start, index.LineOf(sp.start));
      var p := if sp.end > sp.start then sp.end - 1 else sp.start;
      index.LineOfInverts(p, index.LineOf(p));
    }
  }

  lemma LastLineMonotone(index: LineIndex, a: Span, b: Span)
    requires index.Valid() && a.start <= a.end <= b.start <= b.end
    ensures LastLine(index, a) <= LastLine(index, b)
  {
    var p := if a.end > a.start then a.end - 1 else a.start;
    var q := if b.end > b.start then b.end - 1 else b.start;
    index.LineOfMonotone(p, q);
  }

  datatype Group = Group(first: nat, last: nat, members: seq<Expansion>)

  ghost predicate AreGroups(index: LineIndex, groups: seq<Group>, reps: seq<Expansion>)
    requires index.Valid()
  {
    && Flatten(MembersOf(groups)) == reps
    && (forall k | 0 <= k < |groups| :: IsGroup(index, groups[k].first, groups[k].last, groups[k].members))
    && (forall j, k | 0 <= j < k < |groups| :: groups[j].last + 1 < groups[k].first)
  }

  ghost function MembersOf(groups: seq<Group>): (r: seq<seq<Expansion>>)
    ensures |r| == |groups| && forall k | 0 <= k < |r| :: r[k] == groups[k].members
  {
    seq(|groups|, k requires 0 <= k < |groups| => groups[k].members)
  }

  lemma SingleGroup(index: LineIndex, rep: Expansion)
    requires index.Valid() && rep.at.start <= rep.at.end <= |index.content|
    ensures IsGroup(index, FirstLine(index, rep.at), LastLine(index, rep.at), [rep])
  {
    SpanInLines(index, rep.at);
    LinesOfSpan(index, rep.at);
    LineStartMonotone(index, FirstLine(index, rep.at), LastLine(index, rep.at) + 1);
  }

  lemma LineStartMonotone(index: LineIndex, i: nat, j: nat)
    requires index.Valid() && i <= j
    ensures index.LineStart(i) <= index.LineStart(j)
  {
    assert i < |index.starts| ==> IsLine(index.content, index.starts, i);
  }

  /** A match joins the group whose last line it starts on, or right after. */
  lemma GroupGrows(index: LineIndex, first: nat, last: nat, members: seq<Expansion>, rep: Expansion)
    requires index.Valid() && IsGroup(index, first, last, members)
    requires members[|members| - 1].at.end <= rep.at.start <= rep.at.end <= |index.content|
    requires FirstLine(index, rep.at) <= last + 1
    ensures IsGroup(index, first, LastLine(index, rep.at), members + [rep])
    ensures last <= LastLine(index, rep.at)
  {
    hide IsLineTable, FirstLine, LastLine;
    var all := members + [rep];
    LastLineMonotone(index, members[|members| - 1].at, rep.at);
    LineStartMonotone(index, last + 1, LastLine(index, rep.at) + 1);
    SpanInLines(index, rep.at);
    assert all[0] == members[0];
    forall k | 0 < k < |all|
      ensures Joins(index, all, k)
    {
      assert k < |members| ==> Joins(index, members, k);
    }
    forall j | 0 <= j < |members|
      ensures members[j].at.end <= rep.at.start
    {
    }
  }

  lemma FlattenSnoc<T>(parts: seq<seq<T>>, part: seq<T>)
    ensures Flatten(parts + [part]) == Flatten(parts) + part
  {
    assert (parts + [part])[..|parts|] == parts;
  }

  lemma GroupAdded(index: LineIndex, groups: seq<Group>, reps: seq<Expansion>, rep: Expansion)
    requires index.Valid() && AreGroups(index, groups, reps)
    requires rep.at.start <= rep.at.end <= |index.content|
    requires groups != [] ==> groups[|groups| - 1].last + 1 < FirstLine(index, rep.at)
    ensures AreGroups(index, groups + [Group(FirstLine(index, rep.at), LastLine(index, rep.at), [rep])], reps + [rep])
  {
    hide IsGroup, FirstLine, LastLine, IsLineTable, Flatten;
    SingleGroup(index, rep);
    if groups != [] {
      GroupNotEmpty(index, groups[|groups| - 1]);
    }
    var g := Group(FirstLine(index, rep.at), LastLine(index, rep.at), [rep]);
    FlattenSnoc(MembersOf(groups), [rep]);
    assert MembersOf(groups + [g]) == MembersOf(groups) + [[rep]];
  }

  lemma GroupExtended(index: LineIndex, groups: seq<Group>, reps: seq<Expansion>, rep: Expansion)
    requires index.Valid() && AreGroups(index, groups, reps) && groups != []
    requires reps != [] && reps[|reps| - 1].at.end <= rep.at.start <= rep.at.end <= |index.content|
    requires FirstLine(index, rep.at) <= groups[|groups| - 1].last + 1
    ensures var g := groups[|groups| - 1];
            && g.last <= LastLine(index, rep.at)
            && AreGroups(index, groups[..|groups| - 1] + [Group(g.first, LastLine(index, rep.at), g.members + [rep])],
                         reps + [rep])
  {
    hide IsGroup, FirstLine, LastLine, IsLineTable, Flatten;
    var n := |groups| - 1;
    var g := groups[n];
    var init := MembersOf(groups[..n]);
    GroupNotEmpty(index, g);
    assert MembersOf(groups) == init + [g.members];
    FlattenSnoc(init, g.members);
    LastOfConcat(Flatten(init), g.members);
    GroupGrows(index, g.first, g.last, g.members, rep);
    var g' := Group(g.first, LastLine(index, rep.at), g.members + [rep]);
    FlattenSnoc(init, g'.members);
    assert MembersOf(groups[..n] + [g']) == init + [g'.members];
    assert Flatten(init) + (g.members + [rep]) == reps + [rep];
    var groups' := groups[..n] + [g'];
    forall k | 0 <= k < |groups'|
      ensures IsGroup(index, groups'[k].first, groups'[k].last, groups'[k].members)
    {
      assert k < n ==> groups'[k] == groups[k];
    }
  }

  /** A group has a match, and its lines are in order. */
  lemma GroupNotEmpty(index: LineIndex, g: Group)
    requires index.Valid() && IsGroup(index, g.first, g.last, g.members)
    ensures g.members != [] && g.first <= g.last
  {
    hide IsLineTable, FirstLine, LastLine, Joined;
    LinesOfSpan(index, g.members[0].at);
    if |g.members| > 1 {
      LastLineMonotone(index, g.members[0].at, g.members[|g.members| - 1].at);
    }
  }

  /** A group has no line that none of its matches is on. */
  lemma {:induction false} GroupTouches(index: LineIndex, members: seq<Expansion>, li: nat, n: nat) returns (k: nat)
    requires index.Valid() && n < |members| && Joined(index, members)
    requires FirstLine(index, members[0].at) <= li <= LastLine(index, members[n].at)
    ensures k <= n && FirstLine(index, members[k].at) <= li <= LastLine(index, members[k].at)
  {
    hide IsLineTable, FirstLine, LastLine;
    k := n;
    if n > 0 {
      assert Joins(index, members, n);
      if li <= LastLine(index, members[n - 1].at) {
        k := GroupTouches(index, members, li, n - 1);
      }
    }
  }

  /** Every line of a block is on one of its matches: no more lines are rewritten than
      matches touch. */
  lemma BlockTouches(index: LineIndex, b: ReplaceBlock, members: seq<Expansion>, li: nat) returns (k: nat)
    requires index.Valid() && IsBlock(index, b, members) && b.first <= li <= b.last
    ensures k < |b.reps| && FirstLine(index, b.reps[k].src) <= li <= LastLine(index, b.reps[k].src)
  {
    hide IsLineTable, FirstLine, LastLine, InOrder, Landing, Rewrite, Joined;
    k := GroupTouches(index, members, li, |members| - 1);
  }

  lemma LastOfConcat<T>(a: seq<T>, b: seq<T>)
    requires b != []
    ensures (a + b)[|a + b| - 1] == b[|b| - 1]
  {
  }

  /** Group the matches into blocks and rewrite each block. */
  method Build(index: LineIndex, reps: seq<Expansion>)
      returns (blocks: seq<ReplaceBlock>, ghost members: seq<seq<Expansion>>)
    requires index.Valid() && InOrder(reps, 0, |index.content|)
    ensures AreBlocks(index, blocks, members, reps)
    ensures forall j, k | 0 <= j < k < |blocks| :: blocks[j].last + 1 < blocks[k].first
    ensures blocks == [] <==> reps == []
  {
    hide IsGroup, IsBlock, IsLineTable, Flatten, InOrder;
    var groups := GroupMatches(index, reps);
    blocks := [];
    members := MembersOf(groups);
    var k := 0;
    while k < |groups|
      invariant 0 <= k <= |groups| && |blocks| == k
      invariant forall j | 0 <= j < k ::
                  IsBlock(index, blocks[j], members[j])
                  && blocks[j].first == groups[j].first && blocks[j].last == groups[j].last
    {
      var b := RewriteGroup(index, groups[k]);
      blocks := blocks + [b];
      k := k + 1;
    }
  }

  method GroupMatches(index: LineIndex, reps: seq<Expansion>) returns (groups: seq<Group>)
    requires index.Valid() && InOrder(reps, 0, |index.content|)
    ensures AreGroups(index, groups, reps) && (groups == [] <==> reps == [])
  {
    hide AreGroups, FirstLine, LastLine, IsLineTable;
    groups := [];
    var k := 0;
    NoGroups(index);
    assert reps[..0] == [];
    while k < |reps|
      invariant 0 <= k <= |reps| && AreGroups(index, groups, reps[..k])
      invariant groups == [] <==> k == 0
    {
      var rep := reps[k];
      var first, last := FirstLine(index, rep.at), LastLine(index, rep.at);
      assert reps[..k + 1] == reps[..k] + [rep];
      if groups != [] && first <= groups[|groups| - 1].last + 1 {
        GroupExtended(index, groups, reps[..k], rep);
        var g := groups[|groups| - 1];
        groups := groups[..|groups| - 1] + [Group(g.first, Max(g.last, last), g.members + [rep])];
      } else {
        GroupAdded(index, groups, reps[..k], rep);
        groups := groups + [Group(first, last, [rep])];
      }
      k := k + 1;
    }
    assert reps[..k] == reps;
  }

  lemma NoGroups(index: LineIndex)
    requires index.Valid()
    ensures AreGroups(index, [], [])
  {
  }

  method RewriteGroup(index: LineIndex, g: Group) returns (b: ReplaceBlock)
    requires index.Valid() && IsGroup(index, g.first, g.last, g.members)
    ensures IsBlock(index, b, g.members) && b.first == g.first && b.last == g.last
  {
    hide IsLineTable, Joined, FirstLine, LastLine, Landing, Replaced;
    var start, end := index.LineStart(g.first), index.LineStart(g.last + 1);
    var text: bytes := [];
    var reps: seq<Placed> := [];
    var pos, k := start, 0;
    NoneReplaced(index.content, start, g.members);
    while k < |g.members|
      invariant 0 <= k <= |g.members| && |reps| == k
      invariant pos == Reached(start, g.members[..k])
      invariant text == Replaced(index.content, start, g.members[..k])
      invariant forall j | 0 <= j < k ::
                  reps[j] == Placed(g.members[j].at, Landing(index.content, start, g.members, j))
    {
      var rep := g.members[k];
      ReplacedSnoc(index.content, start, g.members, k);
      text := text + index.content[pos..rep.at.start];
      var at := |text|;
      text := text + rep.text;
      reps := reps + [Placed(rep.at, Span(at, |text|))];
      pos := rep.at.end;
      k := k + 1;
    }
    assert g.members[..k] == g.members;
    text := text + index.content[pos..end];
    b := ReplaceBlock(g.first, g.last, start, text, reps);
  }

  // ---------------------------------------------------------------------------
  // Blocks against the whole buffer

  /** Where the source stands after the first `n` blocks. */
  ghost function EndOf(index: LineIndex, blocks: seq<ReplaceBlock>, n: nat): nat
    requires index.Valid() && n <= |blocks|
  {
    if n == 0 then 0 else index.LineStart(blocks[n - 1].last + 1)
  }

  /** The first `n` blocks' texts between the untouched lines before them. */
  ghost function Interleaved(index: LineIndex, blocks: seq<ReplaceBlock>, members: seq<seq<Expansion>>,
                             reps: seq<Expansion>, n: nat): bytes
    requires index.Valid() && AreBlocks(index, blocks, members, reps) && n <= |blocks|
  {
    if n == 0 then []
    else
      BlockFollows(index, blocks, members, reps, n - 1);
      Interleaved(index, blocks, members, reps, n - 1)
      + index.content[EndOf(index, blocks, n - 1)..blocks[n - 1].start] + blocks[n - 1].text
  }

  lemma BlockFollows(index: LineIndex, blocks: seq<ReplaceBlock>, members: seq<seq<Expansion>>, reps: seq<Expansion>,
                     n: nat)
    requires index.Valid() && AreBlocks(index, blocks, members, reps) && n < |blocks|
    ensures EndOf(index, blocks, n) <= blocks[n].start <= EndOf(index, blocks, n + 1) <= |index.content|
  {
    assert IsBlock(index, blocks[n], members[n]);
    if n > 0 {
      LineStartMonotone(index, blocks[n - 1].last + 1, blocks[n].first);
    }
  }

  /** Rewriting block by block is rewriting the buffer: the blocks' texts, with
      the lines between them untouched, are the buffer with every match replaced. */
  lemma {:induction false} BlocksRewriteBuffer(index: LineIndex, blocks: seq<ReplaceBlock>,
                                               members: seq<seq<Expansion>>, reps: seq<Expansion>, n: nat)
    requires index.Valid() && AreBlocks(index, blocks, members, reps) && n <= |blocks|
    ensures InOrder(Flatten(members[..n]), 0, EndOf(index, blocks, n)) && EndOf(index, blocks, n) <= |index.content|
    ensures Interleaved(index, blocks, members, reps, n)
         == Rewrite(index.content, 0, Flatten(members[..n]), EndOf(index, blocks, n))
  {
    hide IsBlock, Rewrite, InOrder, IsLineTable, Flatten;
    if n == 0 {
      RewriteNothing(index.content, 0, 0);
      NothingFlattened(members);
    } else {
      var b := blocks[n - 1];
      BlocksRewriteBuffer(index, blocks, members, reps, n - 1);
      BlockFollows(index, blocks, members, reps, n - 1);
      BlockText(index, b, members[n - 1]);
      assert members[..n] == members[..n - 1] + [members[n - 1]];
      FlattenSnoc(members[..n - 1], members[n - 1]);
      RewriteAcrossGap(index.content, Flatten(members[..n - 1]), EndOf(index, blocks, n - 1), b.start,
                       members[n - 1], EndOf(index, blocks, n));
    }
  }

  lemma NothingFlattened(members: seq<seq<Expansion>>)
    ensures Flatten(members[..0]) == []
  {
  }

  lemma BlockText(index: LineIndex, b: ReplaceBlock, members: seq<Expansion>)
    requires index.Valid() && IsBlock(index, b, members)
    ensures InOrder(members, b.start, index.LineStart(b.last + 1))
    ensures b.text == Rewrite(index.content, b.start, members, index.LineStart(b.last + 1))
  {
  }

  /** The block-by-block rewrite of the whole buffer. */
  lemma BlocksRewriteAll(index: LineIndex, blocks: seq<ReplaceBlock>, members: seq<seq<Expansion>>,
                         reps: seq<Expansion>)
    requires index.Valid() && AreBlocks(index, blocks, members, reps)
    ensures EndOf(index, blocks, |blocks|) <= |index.content|
    ensures Interleaved(index, blocks, members, reps, |blocks|) + index.content[EndOf(index, blocks, |blocks|)..]
         == Rewrite(index.content, 0, reps, |index.content|)
  {
    hide IsBlock, Rewrite, IsLineTable, Flatten, Interleaved;
    var end := EndOf(index, blocks, |blocks|);
    BlocksRewriteBuffer(index, blocks, members, reps, |blocks|);
    assert members[..|blocks|] == members;
    RewriteExtends(index.content, 0, reps, end, |index.content|);
    assert index.content[end..] == index.content[end..|index.content|];
  }
}
