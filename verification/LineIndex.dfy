/** The line table of a buffer: offsets to lines and back. */
module LineIndexing {
  import opened Bytes

  /** Line `k` of the table: not empty, holding no newline before its last byte,
      and closed by a newline unless it is the last line. */
  ghost predicate IsLine(content: bytes, starts: seq<nat>, k: nat)
    requires k < |starts|
  {
    var next := if k + 1 < |starts| then starts[k + 1] else |content|;
    && starts[k] < next <= |content|
    && (k + 1 < |starts| ==> content[next - 1] == NL)
    && forall i | starts[k] <= i < next - 1 :: content[i] != NL
  }

  /** `starts` is the table of line starts that `content` must have. */
  ghost predicate IsLineTable(content: bytes, starts: seq<nat>) {
    && (content == [] <==> starts == [])
    && (starts != [] ==> starts[0] == 0)
    && (forall j, k | 0 <= j < k < |starts| :: starts[j] < starts[k])
    && (forall k | 0 <= k < |starts| :: IsLine(content, starts, k))
  }

  /** A table holds offset 0 and the offset after every newline but a final one. */
  lemma TableMembers(content: bytes, starts: seq<nat>, x: nat)
    requires IsLineTable(content, starts)
    ensures x in starts <==> x < |content| && (x == 0 || content[x - 1] == NL)
  {
    if x in starts {
      var k :| 0 <= k < |starts| && starts[k] == x;
      assert IsLine(content, starts, k);
      assert k > 0 ==> IsLine(content, starts, k - 1);
    } else if 0 < x < |content| {
      var k := LastStartAtMost(starts, x - 1, |starts|);
      assert IsLine(content, starts, k);
      assert k + 1 < |starts| ==> starts[k + 1] in starts;
    }
  }

  /** The buffer has only one table of line starts. */
  lemma LineTableUnique(content: bytes, a: seq<nat>, b: seq<nat>)
    requires IsLineTable(content, a) && IsLineTable(content, b)
    ensures a == b
  {
    forall x: nat
      ensures x in a <==> x in b
    {
      TableMembers(content, a, x);
      TableMembers(content, b, x);
    }
    AscendingUnique(a, b);
  }

  /** Index of the last of the first `k` starts that is at most `offset`. */
  function LastStartAtMost(starts: seq<nat>, offset: nat, k: nat): (i: nat)
    requires 0 < k <= |starts| && starts[0] == 0
    requires forall a, b | 0 <= a < b < |starts| :: starts[a] < starts[b]
    ensures i < k
    ensures forall j | 0 <= j <= i :: starts[j] <= offset
    ensures forall j | i < j < k :: offset < starts[j]
  {
    if k == 1 || starts[k - 1] <= offset then k - 1 else LastStartAtMost(starts, offset, k - 1)
  }

  datatype LineIndex = LineIndex(content: bytes, starts: seq<nat>) {
    ghost predicate Valid() {
      IsLineTable(content, starts)
    }

    function LineCount(): nat {
      |starts|
    }

    /** The line that holds `offset`, counted from zero. */
    function LineOf(offset: nat): nat
      requires Valid()
    {
      if starts == [] then 0 else LastStartAtMost(starts, offset, |starts|)
    }

    function LineStart(idx: nat): (r: nat)
      requires Valid()
      ensures r <= |content|
    {
      assert idx < |starts| ==> IsLine(content, starts, idx);
      if idx < |starts| then starts[idx] else |content|
    }

    /** End of line `idx` without its `\n` or `\r\n`. */
    function LineEnd(idx: nat): (r: nat)
      requires Valid()
      ensures LineStart(idx) <= r <= LineStart(idx + 1) <= |content|
    {
      assert idx < |starts| ==> IsLine(content, starts, idx);
      var start := LineStart(idx);
      var raw := LineStart(idx + 1);
      var end := if raw > start && content[raw - 1] == NL then raw - 1 else raw;
      if end > start && content[end - 1] == CR then end - 1 else end
    }

    function LineTerminatorLen(idx: nat): (r: nat)
      requires Valid()
    {
      LineStart(idx + 1) - LineEnd(idx)
    }

    function LineText(idx: nat): (r: bytes)
      requires Valid()
    {
      content[LineStart(idx)..LineEnd(idx)]
    }

    /** `line_of` inverts `line_start`: every offset up to and including the end
        of the buffer lies on the line reported for it and on no other line. */
    lemma LineOfInverts(offset: nat, idx: nat)
      requires Valid() && content != []
      ensures LineOf(offset) == idx
        <==> (idx < LineCount() && LineStart(idx) <= offset
              && (idx + 1 < LineCount() ==> offset < LineStart(idx + 1)))
    {
    }

    lemma LineOfMonotone(a: nat, b: nat)
      requires Valid() && a <= b
      ensures LineOf(a) <= LineOf(b)
    {
      assert starts != [] ==> starts[LineOf(a)] <= a;
    }

    /** A line is not empty, its text holds no newline, and every line but the last
        ends with one. */
    lemma LineTextShape(idx: nat)
      requires Valid() && idx < LineCount()
      ensures LineStart(idx) < LineStart(idx + 1)
      ensures NL !in LineText(idx)
      ensures idx + 1 < LineCount() ==> content[LineStart(idx + 1) - 1] == NL
      ensures idx + 1 == LineCount() ==> LineStart(idx + 1) == |content|
    {
      assert IsLine(content, starts, idx);
      NotInSlice(content, LineStart(idx), LineEnd(idx), NL);
    }

    /** What stands between a line's text and the next line, and that the text
        itself holds no newline. */
    lemma LineShape(idx: nat)
      requires Valid() && idx < LineCount()
      ensures LineStart(idx) < LineStart(idx + 1)
      ensures NL !in LineText(idx)
      ensures var t := content[LineEnd(idx)..LineStart(idx + 1)];
              t == [NL] || t == [CR, NL] || ((t == [CR] || t == []) && idx + 1 == LineCount())
      ensures idx + 1 < LineCount() ==> content[LineStart(idx + 1) - 1] == NL
      ensures content[LineStart(idx + 1) - 1] != NL ==> idx + 1 == LineCount()
    {
      hide IsLineTable, LineStart, LineText;
      LineTextShape(idx);
      var end, raw := LineEnd(idx), LineStart(idx + 1);
      if end < raw {
        OneByte(content, raw - 1);
        if end + 1 < raw {
          TwoBytes(content, end);
        }
      }
    }

    /** A position on a line's text, or at its end, belongs to that line, and the
        byte on either side of the text is a terminator byte or absent. */
    lemma LineBorders(idx: nat, p: nat)
      requires Valid() && idx < LineCount() && LineStart(idx) <= p <= LineEnd(idx)
      ensures LineOf(p) == idx
      ensures LineStart(idx) > 0 ==> content[LineStart(idx) - 1] == NL
      ensures LineEnd(idx) < |content| ==> content[LineEnd(idx)] in {NL, CR}
    {
      LineShape(idx);
      LineOfInverts(p, idx);
      assert idx > 0 ==> IsLine(content, starts, idx - 1);
      var t := content[LineEnd(idx)..LineStart(idx + 1)];
      assert t != [] ==> t[0] == content[LineEnd(idx)];
    }

    /** The buffer up to line `n`, as line texts with their terminators. */
    ghost function Reassembled(n: nat): bytes
      requires Valid()
    {
      if n == 0 then []
      else Reassembled(n - 1) + LineText(n - 1) + content[LineEnd(n - 1)..LineStart(n)]
    }

    lemma FirstStart()
      requires Valid()
      ensures LineStart(0) == 0
    {
    }

    lemma StartsInOrder(idx: nat)
      requires Valid()
      ensures LineStart(idx) <= LineEnd(idx) <= LineStart(idx + 1) <= |content|
    {
    }

    /** Line texts and terminators partition the buffer. */
    lemma {:induction false} LinesPartition(n: nat)
      requires Valid()
      ensures Reassembled(n) == content[..LineStart(n)]
    {
      hide IsLineTable, LineStart, LineEnd;
      if n == 0 {
        FirstStart();
      } else {
        LinesPartition(n - 1);
        StartsInOrder(n - 1);
        Rejoin(content, LineStart(n - 1), LineEnd(n - 1), LineStart(n));
      }
    }

    /** The last line's text and the whole buffer are reached together. */
    lemma LinesCoverContent()
      requires Valid()
      ensures Reassembled(LineCount()) == content
    {
      LinesPartition(LineCount());
    }
  }

  /** How many newlines `s` holds. */
  ghost function Newlines(s: bytes): nat {
    if s == [] then 0 else Newlines(s[..|s| - 1]) + (if s[|s| - 1] == NL then 1 else 0)
  }

  /** Line numbers count newlines: an offset is on the line numbered by the
      newlines before it, except that a final newline opens no line. */
  lemma {:induction false} LineOfCountsNewlines(index: LineIndex, offset: nat)
    requires index.Valid() && index.content != [] && offset <= |index.content|
    ensures index.LineOf(offset) == Min(Newlines(index.content[..offset]), index.LineCount() - 1)
    decreases offset
  {
    var content := index.content;
    if offset == 0 {
      index.LineOfInverts(0, 0);
    } else {
      LineOfCountsNewlines(index, offset - 1);
      assert content[..offset][..offset - 1] == content[..offset - 1];
      var i := index.LineOf(offset - 1);
      index.LineOfInverts(offset - 1, i);
      TableMembers(content, index.starts, offset);
      if content[offset - 1] == NL && offset < |content| {
        var k :| 0 <= k < |index.starts| && index.starts[k] == offset;
        index.LineOfInverts(offset, k);
        index.LineOfInverts(offset - 1, k - 1);
      } else {
        index.LineOfInverts(offset, i);
        if offset == |content| {
          assert IsLine(content, index.starts, i);
        }
      }
    }
  }

  /** `str::lines`: split after every newline, then strip `\n` and, only if a
      `\n` was there, the `\r` before it. */
  function StdLine(raw: bytes): bytes {
    if raw == [] || raw[|raw| - 1] != NL then raw
    else if |raw| >= 2 && raw[|raw| - 2] == CR then raw[..|raw| - 2]
    else raw[..|raw| - 1]
  }

  lemma NotInSlice(s: bytes, a: nat, b: nat, x: byte)
    requires a <= b <= |s| && forall p | a <= p < b :: s[p] != x
    ensures x !in s[a..b]
  {
    assert forall i | 0 <= i < b - a :: s[a..b][i] == s[a + i];
  }

  /** Where `str::lines` ends the text of a line. */
  function StdEnd(content: bytes, start: nat, next: nat): (r: nat)
    requires start < next <= |content|
    ensures start <= r <= next
  {
    if content[next - 1] != NL then next
    else if next - start >= 2 && content[next - 2] == CR then next - 2
    else next - 1
  }

  lemma StdLineEnds(content: bytes, start: nat, next: nat)
    requires start < next <= |content|
    ensures StdLine(content[start..next]) == content[start..StdEnd(content, start, next)]
  {
    SliceInSlice(content, start, next, 0, StdEnd(content, start, next) - start);
  }

  lemma SameEnds(index: LineIndex, idx: nat)
    requires index.Valid() && index.LineStart(idx) < index.LineStart(idx + 1)
    ensures StdEnd(index.content, index.LineStart(idx), index.LineStart(idx + 1)) == index.LineEnd(idx)
       <==> index.content[index.LineStart(idx + 1) - 1] != CR
  {
    hide IsLineTable, LineIndex.LineStart;
  }

  /** The table agrees with `str::lines` on every line except an unterminated
      last line that ends in a carriage return. */
  lemma LineTextAgreesWithStdLines(index: LineIndex, idx: nat)
    requires index.Valid() && idx < index.LineCount()
    ensures index.LineText(idx) == StdLine(index.content[index.LineStart(idx)..index.LineStart(idx + 1)])
      <==> !(idx + 1 == index.LineCount() && index.content[|index.content| - 1] == CR)
  {
    hide IsLineTable, LineIndex.LineStart, LineIndex.LineEnd, StdLine, StdEnd;
    var content, start, next := index.content, index.LineStart(idx), index.LineStart(idx + 1);
    index.StartsInOrder(idx);
    index.LineTextShape(idx);
    StdLineEnds(content, start, next);
    SameEnds(index, idx);
    SameSlices(content, start, index.LineEnd(idx), StdEnd(content, start, next));
  }

  /** Slices from one place are the same when they end at the same place. */
  lemma SameSlices(s: bytes, a: nat, b: nat, c: nat)
    requires a <= b <= |s| && a <= c <= |s|
    ensures s[a..b] == s[a..c] <==> b == c
  {
    assert |s[a..b]| == b - a && |s[a..c]| == c - a;
  }

  /** `a\r` without a newline is such a line: the table's text is `a`. */
  lemma StdLinesExample(index: LineIndex)
    requires index.Valid() && index.content == [97, CR]
    ensures index.LineCount() == 1 && index.LineText(0) == [97]
    ensures StdLine(index.content[index.LineStart(0)..index.LineStart(1)]) == [97, CR]
  {
    assert IsLine(index.content, index.starts, 0);
    var n := |index.starts| - 1;
    TableMembers(index.content, index.starts, index.starts[n]);
    assert index.starts[0] == 0 && index.starts[n] == 0;
    assert index.content[0..2] == [97, CR] && index.content[0..1] == [97];
  }

  /** Line starts after scanning the first `n` bytes, the phantom one included. */
  function StartsWithin(content: bytes, n: nat): (starts: seq<nat>)
    requires n <= |content|
    ensures |starts| > 0 && starts[0] == 0
  {
    if n == 0 then [0]
    else if content[n - 1] == NL then StartsWithin(content, n - 1) + [n]
    else StartsWithin(content, n - 1)
  }

  lemma {:induction false} ScannedStarts(content: bytes, n: nat)
    requires n <= |content|
    ensures var s := StartsWithin(content, n);
            && s[|s| - 1] <= n
            && (forall i | s[|s| - 1] <= i < n :: content[i] != NL)
            && (forall j, k | 0 <= j < k < |s| :: s[j] < s[k])
            && (forall k | 0 <= k < |s| - 1 :: IsLine(content, s, k))
  {
    if n > 0 {
      ScannedStarts(content, n - 1);
      var t, s := StartsWithin(content, n - 1), StartsWithin(content, n);
      forall k | 0 <= k < |s| - 1
        ensures IsLine(content, s, k)
      {
        assert k < |t| - 1 ==> IsLine(content, t, k);
      }
    }
  }

  /** The scanned starts are the table once the phantom start is dropped. */
  lemma ScannedStartsAreTable(content: bytes, t: seq<nat>)
    requires content != []
    requires var s := StartsWithin(content, |content|);
             t == if |s| > 1 && s[|s| - 1] == |content| then s[..|s| - 1] else s
    ensures IsLineTable(content, t)
  {
    ScannedStarts(content, |content|);
    var s := StartsWithin(content, |content|);
    forall k | 0 <= k < |t|
      ensures IsLine(content, t, k)
    {
      assert k < |s| - 1 ==> IsLine(content, s, k);
    }
  }

  /** The index object of a search: the table is built on first use and kept. */
  class LazyLineIndex {
    const content: bytes
    var table: Option<seq<nat>>

    ghost predicate Valid()
      reads this
    {
      table.Some? ==> IsLineTable(content, table.value)
    }

    constructor (content: bytes)
      ensures Valid() && this.content == content && table == None
    {
      this.content := content;
      this.table := None;
    }

    /** Build the table unless it is there: push a start after every newline,
        then pop the phantom line a final newline opens. */
    method Starts() returns (starts: seq<nat>)
      requires Valid()
      modifies this
      ensures Valid() && table == Some(starts)
      ensures IsLineTable(content, starts)
      ensures old(table).Some? ==> table == old(table)
    {
      if table.Some? {
        return table.value;
      }
      starts := [];
      if content != [] {
        starts := [0];
        var i := 0;
        while i < |content|
          invariant 0 <= i <= |content|
          invariant starts == StartsWithin(content, i)
        {
          if content[i] == NL {
            starts := starts + [i + 1];
          }
          i := i + 1;
        }
        if |starts| > 1 && starts[|starts| - 1] == |content| {
          starts := starts[..|starts| - 1];
        }
        ScannedStartsAreTable(content, starts);
      }
      table := Some(starts);
    }

    /** Line of an offset by binary search over the table. */
    method LineOf(offset: nat) returns (line: nat)
      requires Valid()
      modifies this
      ensures Valid() && table.Some?
      ensures line == LineIndex(content, table.value).LineOf(offset)
    {
      var starts := Starts();
      if starts == [] {
        return 0;
      }
      var lo, hi := 0, |starts|;
      while lo < hi
        invariant 0 <= lo <= hi <= |starts|
        invariant forall k | 0 <= k < lo :: starts[k] < offset
        invariant forall k | hi <= k < |starts| :: offset < starts[k]
      {
        var mid := (lo + hi) / 2;
        if starts[mid] == offset {
          SearchFound(starts, offset, mid);
          return mid;
        } else if starts[mid] < offset {
          lo := mid + 1;
        } else {
          hi := mid;
        }
      }
      SearchFound(starts, offset, lo - 1);
      return lo - 1;
    }

    lemma SearchFound(starts: seq<nat>, offset: nat, i: nat)
      requires IsLineTable(content, starts) && i < |starts|
      requires starts[i] <= offset && (i + 1 < |starts| ==> offset < starts[i + 1])
      ensures LineIndex(content, starts).LineOf(offset) == i
    {
      LineIndex(content, starts).LineOfInverts(offset, i);
    }
  }
}
