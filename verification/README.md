# tgrep: from matches to output

This project models the part of tgrep that turns the text of a file and the
matches of a pattern into lines of output, together with the byte-level codecs
beside it, and proves that it loses nothing, invents nothing and reports the
right positions.

- `LineIndexing` is the table of line starts; `LazyLineIndex` is the object that
  builds it on first use. `Cursors.Lines` is the second line splitter, used on
  rewritten blocks.
- `Hir` is the regular expression as the engine sees it, with a match relation:
  `Matches(words, h, hay, s, e)` says that `h` matches `hay[s..e]` in its
  surroundings. `Pattern` is the same expression as text. `Regex` is a compiled
  pattern: `search` is any function that returns some leftmost match, and the
  iteration over matches is the loop the engine's iterator runs, which drops an
  empty match where the previous match ended. `Matchers` adds the backtracking
  engine, of which only the order of its spans is known.
- `Prescan` is line-by-line search and its fast path; `Spans`, `SpanOrder` and
  `ReplacementGroups` are the span algebra; `Rewriting`, `Blocks`, `Cursors`,
  `EmitBlocks` and `BlockOutput` are replacement and the rows of rewritten
  blocks; `FileMatching` is `find` and `Traversal` is `for_each`.
- `LineRows` and `BlockRows` say what each row shows and where it stands, told from
  the buffer and the rewritten text.
- `SearchModes`, `SpanAgreement`, `WholeOutput`, `LineOutput` and `LineRewrites`
  relate whole searches: `-U` against line search, first by lines and then by spans,
  and everything `--passthru` prints, by blocks or by lines, against the buffer and
  its rewrite.
- `Utf8` is UTF-8 (section 4 of RFC 3629) with the chunked validation scan;
  `JsonOutput` is the JSON writer; `Base64` is the codec of section 4 of
  RFC 4648; `PathIndex` is the file that lists extra paths.

Content is a sequence of bytes. Functions and datatypes stand for values;
methods with loops, and the classes `LazyLineIndex`, `SourceCursor` and
`OutputWriter`, stand for the code that works by changing state, each proved
against the functions the lemmas are about.

## Where the code and its comments part

- `LineIndex` strips a `\r` from an unterminated last line, which `str::lines`
  does not; it then reports a terminator of one byte for a line the file does not
  terminate (`LineIndexing.LineTextAgreesWithStdLines` gives the exact condition,
  `LineIndexing.StdLinesExample` such a line).
- For a pattern that cannot match a newline, `-U` and line search can differ on a
  line from which a `\r` was stripped, and on no other
  (`SearchModes.ModesAgreeExactly`).
- On such a line `-U -r` can leave a match unreplaced although its line is a hit
  (`SpanAgreement.ReturnLosesReplacement`, for every such line), or report it at the
  column of another match's replacement (`SpanAgreement.ReturnMovesColumn`), because
  it looks for matches again in the line without its `\r`. For a steady engine and a
  pattern that cannot match a newline these are the only lines where a match is not
  reported at its own replacement (`SpanAgreement.ColumnsHoldExactly`).
- Clipping for `--vimgrep` turns a match that starts inside a `\r\n` terminator
  into a span that ends before it starts
  (`Spans.ClippedStaysOnStartLine` gives the exact condition,
  `Spans.ClippedInTerminator` such a match).
- Grouping spans of an empty buffer would use line 0, which the table does not
  have; `find` drops the only match such a buffer can have
  (`FileMatching.MatchesAreOnLines`).
- `base64_decode` accepts a last character with nonzero unused bits
  (`Base64.DecodeEncodeExactly`, `Base64.NotCanonicalExample`).
- The chunked scan is exact for any chunk of four bytes or more; smaller chunks
  would reject wide characters (`Utf8.NarrowChunksReject`).

## Model

| member | source | states |
|---|---|---|
| `LineIndexing.LineTableUnique` | tgrep-cli/src/matching.rs:39-63 | a buffer has one line table, so building it twice gives the same lines |
| `LineIndexing.ScannedStartsAreTable` | tgrep-cli/src/matching.rs:39-63 | a start after every newline, less the phantom one after a final newline, is the line table |
| `LineIndexing.LazyLineIndex.Starts` | tgrep-cli/src/matching.rs:39-63 | the table is built on first use, kept afterwards, and is the buffer's line table |
| `LineIndexing.LazyLineIndex.LineOf` | tgrep-cli/src/matching.rs:70-80 | the binary search finds the line the table assigns to the offset |
| `LineIndexing.LineIndex.LineOfInverts` | tgrep-cli/src/matching.rs:70-87 | an offset from 0 through the length is on line `idx` if and only if it lies between that line's start and the next one's |
| `LineIndexing.LineIndex.LineOfMonotone` | tgrep-cli/src/matching.rs:70-80 | later offsets are on later lines |
| `LineIndexing.LineIndex.LineShape` | tgrep-cli/src/matching.rs:89-123 | a line's text holds no newline, and `\n`, `\r\n` or, on the last line only, `\r` or nothing stands between it and the next line |
| `LineIndexing.LineIndex.LineBorders` | tgrep-cli/src/matching.rs:89-105 | only `\n`, `\r` or an end of the buffer borders a line's text, and every position on it maps back to the line |
| `LineIndexing.LineIndex.LinesPartition` | tgrep-cli/src/matching.rs:39-123 | line texts and terminators up to line `n` are the buffer up to that line's start |
| `LineIndexing.LineIndex.LinesCoverContent` | tgrep-cli/src/matching.rs:39-123 | all line texts with their terminators are the whole buffer |
| `LineIndexing.LineOfCountsNewlines` | tgrep-cli/src/matching.rs:39-80 | line numbers count newlines, except that a final newline opens no line |
| `LineIndexing.LineTextAgreesWithStdLines` | tgrep-cli/src/matching.rs:89-123 | the line text is that of `str::lines` if and only if it is not an unterminated last line ending in `\r` |
| `LineIndexing.StdLinesExample` | tgrep-cli/src/matching.rs:89-123 | `a\r` is such a line: its text is `a` here and `a\r` for `str::lines` |
| `Hir.MatchIsLocal` | tgrep-cli/src/matching.rs:1549-1581 | an anchor-free expression matches within a line's text exactly when it matches at the shifted place in the whole buffer, word boundaries and repetition included |
| `Hir.TimesIsLocal` | tgrep-cli/src/matching.rs:1549-1581 | the same for any number of repetitions in a row |
| `Hir.SeqIsLocal` | tgrep-cli/src/matching.rs:1549-1581 | the same for any concatenation |
| `Hir.WordBeforeIsLocal` | tgrep-cli/src/matching.rs:1549-1581 | a word character ends at a place of the line exactly when one ends there in the buffer |
| `Hir.LookIsLocalExactly` | tgrep-cli/src/matching.rs:1549-1581 | which looks hold alike on a line and in the buffer: `\A` exactly on the first line, `\z` exactly where no terminator follows, multi-line `^` always, multi-line `$` unless a `\r` follows, their CRLF forms unless a `\r\n` is cut in two, and word looks always |
| `Hir.NewlineAnalysisSound` | tgrep-cli/src/matching.rs:643-667 | when the static analysis says no, no match of the expression contains a newline |
| `Hir.NewlineFreeIsAnchorFree` | tgrep-cli/src/matching.rs:643-667 | an expression the analysis clears of newlines has no anchors either |
| `Pattern.PatternIsAnchorFree` | tgrep-cli/src/matching.rs:1562-1581 | the byte loop computes the scan the lemmas below are about |
| `Pattern.ScanFollowsSyntax` | tgrep-cli/src/matching.rs:1562-1581 | over a spelled syntax tree followed by any text the scan keeps in step with the syntax |
| `Pattern.ScanIsExact` | tgrep-cli/src/matching.rs:1549-1581 | the scan says no exactly when the tree has an anchor or a class with a raw `^` or `$` |
| `Pattern.AnchorFreePattern` | tgrep-cli/src/matching.rs:1549-1581 | a pattern whose text passes the scan means an expression without anchors |
| `Pattern.NewlineAnalysisIgnoresFlags` | tgrep-cli/src/matching.rs:620-641 | parsing again with `multi_line` on, case not ignored and Unicode on gives the answer the expression as compiled would give |
| `Pattern.AnalysisOfTree` | tgrep-cli/src/matching.rs:620-667 | under every setting of the flags the analysis answers whether the syntax holds a newline or an anchor |
| `Regex.Regex.FindSpans` | tgrep-cli/src/matching.rs:510-530 | the iterator's loop yields the matches of the recursive definition |
| `Regex.Regex.MatchedStarts` | tgrep-cli/src/matching.rs:510-530 | the first match yielded is the one found from the start |
| `Regex.Regex.MatchedGoesOn` | tgrep-cli/src/matching.rs:510-530 | after a match that ends at `e` comes the one found from `e`, though it may start there, unless it is empty there; then comes the one found from `e + 1`; the iteration ends only where nothing is found |
| `Regex.Regex.IterationInOrder` | tgrep-cli/src/matching.rs:1593-1605 | yielded matches are real, come in order, do not overlap, and no two end at the same place |
| `Regex.Regex.IterationCovers` | tgrep-cli/src/matching.rs:1593-1605 | wherever a match can start, some yielded match reaches, both of its ends included |
| `Regex.Regex.MatchedEmpty` | tgrep-cli/src/matching.rs:496-552 | iterating, asking for a first match and asking whether there is one agree with each other and with the match relation |
| `Regex.Regex.ReportsIsLocal` | tgrep-cli/src/matching.rs:1549-1605 | what the engine may report on a line is what it may report there in the buffer |
| `Regex.EngineExists` | tgrep-cli/src/matching.rs:510-530 | every pattern has an engine that keeps the contract asked of it here and stands by its choice |
| `Regex.Regex.ShortestSteadyCut` | tgrep-cli/src/matching.rs:1549-1555 | preferring the shortest match is a choice that text past the line does not change |
| `Matchers.Matcher.FirstOfAll` | tgrep-cli/src/matching.rs:496-552 | the first span asked for alone is the first of all spans |
| `Matchers.Matcher.SpansOrdered` | tgrep-cli/src/matching.rs:510-530 | spans are in bounds, in order, without overlap, with strictly ascending ends |
| `Matchers.Matcher.NewlineFreeSpans` | tgrep-cli/src/matching.rs:612-641 | when `can_match_newline` says no, no reported span contains a newline |
| `Prescan.PlainHitsMeaning` | tgrep-cli/src/matching.rs:1648-1715 | the loop over every line finds exactly the selected lines up to where it may stop: the end, the limit, or the first unselected line after a hit under `--stop-on-nonmatch` |
| `Prescan.PlainHitsSearched` | tgrep-cli/src/matching.rs:1648-1715 | in terms of the matches of the lines: the hits are the lines with a match, each with all its matches or the first, or under `-v` the lines without one, with no spans; the search stops at the end, at the limit, or under `--stop-on-nonmatch` at the first line after a hit that is not wanted |
| `Prescan.VisitSkips` | tgrep-cli/src/matching.rs:1681-1713 | without `--stop-on-nonmatch`, leaving out lines that are not selected changes nothing, at any limit |
| `Prescan.PushLines` | tgrep-cli/src/matching.rs:1630-1644 | adding the lines of one match keeps the list strictly ascending and adds just those lines |
| `Prescan.CandidateLines` | tgrep-cli/src/matching.rs:1607-1645 | the prescan declines exactly on its four guards; otherwise it lists every line a match of the buffer touches, each once, ascending |
| `Prescan.MatchingLineIsTouched` | tgrep-cli/src/matching.rs:1593-1605 | a line that matches on its own is touched by some match of the whole buffer |
| `Prescan.SelectedIsCandidate` | tgrep-cli/src/matching.rs:1593-1645 | a line that would be selected is a candidate exactly when the table has it |
| `Prescan.PrescanIsExact` | tgrep-cli/src/matching.rs:1583-1645 | for every buffer, anchor-free pattern and limit, checking the candidates alone gives the same lines with the same spans as checking every line |
| `Prescan.InvertedHits` | tgrep-cli/src/matching.rs:1656-1675 | the loop for inverted search finds what the plain loop selects, lines that do not match, with the same stops |
| `Prescan.CollectHits` | tgrep-cli/src/matching.rs:1648-1715 | whichever way it goes, the result is that of the plain loop |
| `SpanOrder.SortSorts` | tgrep-cli/src/matching.rs:210-212 | sorting orders the spans and keeps them as a multiset |
| `SpanOrder.SortedUnique` | tgrep-cli/src/matching.rs:210-212 | there is one sorted arrangement, so any sort gives it |
| `SpanOrder.MergeSorted` | tgrep-cli/src/matching.rs:213-220 | the loop that merges in place computes the merge |
| `SpanOrder.MergeIsExact` | tgrep-cli/src/matching.rs:213-220 | merging sorted spans leaves them in order and apart and covers the same positions |
| `Spans.LimitToLineBlocks` | tgrep-cli/src/matching.rs:136-170 | what is kept is the longest prefix that forms at most `max` blocks of lines |
| `Spans.KeptAndDroppedShareNoLine` | tgrep-cli/src/matching.rs:136-170 | no line is covered by both a kept and a dropped span |
| `Spans.BlockCountMonotone` | tgrep-cli/src/matching.rs:136-170 | a longer prefix forms no fewer blocks |
| `Spans.GroupSpansByLine` | tgrep-cli/src/matching.rs:190-225 | the groups are the lines with pieces, ascending, each with its pieces sorted and merged |
| `Spans.RangesAreExact` | tgrep-cli/src/matching.rs:190-225 | a line's ranges are in bounds, in order and apart, and a text byte is in one of them if and only if it is in some span |
| `Spans.GroupingIgnoresOrder` | tgrep-cli/src/matching.rs:190-225 | the groups do not depend on the order of the spans |
| `Spans.ClippedStaysOnStartLine` | tgrep-cli/src/matching.rs:172-188 | a clipped span covers its start line and no other, and is a proper range if and only if the match does not start inside the terminator |
| `Spans.ClippedInTerminator` | tgrep-cli/src/matching.rs:172-188 | in `a\r\n` a match of the newline is clipped to a span that ends before it starts |
| `Spans.ClippedRanges` | tgrep-cli/src/matching.rs:172-225 | the ranges of clipped matches hold just the text bytes in a match that starts on the line |
| `Spans.ExpandContextWindow` | tgrep-cli/src/matching.rs:227-244 | the lines shown are exactly those of the file within `before` and `after` of a matching line |
| `Rewriting.ReplaceAll` | tgrep-cli/src/matching.rs:554-571 | the loop rewrites the text and records where each replacement lands |
| `Rewriting.LandingIsShifted` | tgrep-cli/src/matching.rs:1204-1232 | a replacement lands at its match's offset plus the length changes of those before it |
| `Rewriting.LandingHoldsText` | tgrep-cli/src/matching.rs:554-571 | the reported range of the rewritten text holds the replacement |
| `Rewriting.RewriteSplits` | tgrep-cli/src/matching.rs:554-571 | rewriting a stretch is rewriting its two parts when no match crosses the cut |
| `Rewriting.SelfReplacement` | tgrep-cli/src/matching.rs:554-571 | replacing each match by itself gives the text back |
| `Blocks.GroupMatches` | tgrep-cli/src/matching.rs:285-305 | matches are grouped by touching or adjacent lines, and the groups together are all the matches in order |
| `Blocks.RewriteGroup` | tgrep-cli/src/matching.rs:306-326 | a block's text is its lines with its matches replaced, and each replacement is recorded where it landed |
| `Blocks.Build` | tgrep-cli/src/matching.rs:283-326 | the blocks are those of the matches, in order, at least one untouched line apart |
| `Blocks.BlockTouches` | tgrep-cli/src/matching.rs:283-305 | every line of a block is on one of its matches |
| `Blocks.BlocksRewriteBuffer` | tgrep-cli/src/matching.rs:283-326 | the first blocks, with the untouched lines between them, are the buffer up to there with every match replaced |
| `Blocks.BlocksRewriteAll` | tgrep-cli/src/matching.rs:283-326 | rewriting block by block is rewriting the whole buffer |
| `Cursors.Lines` | tgrep-cli/src/matching.rs:328-349 | the rewritten lines follow each other without gap and end at a newline or at the end of the text |
| `Cursors.RowsAreLines` | tgrep-cli/src/matching.rs:328-349 | they are the lines a line table of the rewritten text would give, with the same ends and terminators |
| `Cursors.BlockLayout` | tgrep-cli/src/matching.rs:246-326 | a block's replacements lie in order, each at its match's place moved by what the earlier ones gained |
| `Cursors.SourceBounds` | tgrep-cli/src/matching.rs:374-386 | the source offset behind a position lies in the block, between the replacements around it |
| `Cursors.SourceMonotone` | tgrep-cli/src/matching.rs:352-387 | later positions stand for later source offsets |
| `Cursors.SourceOfReplacement` | tgrep-cli/src/matching.rs:374-386 | inside a replacement the source offset is the start of its match |
| `Cursors.SourceOfCopy` | tgrep-cli/src/matching.rs:374-386 | elsewhere the byte at the source offset is the rewritten byte |
| `Cursors.SourceCursor.At` | tgrep-cli/src/matching.rs:352-387 | whatever nondecreasing positions were asked before, the cursor gives the source offset of the position, and its saturating addition never saturates |
| `ReplacementGroups.GroupReplacementsByLine` | tgrep-cli/src/matching.rs:389-422 | the lines and ranges are those of the merged groups although nothing is merged, with one text for each range: the replacement where its match starts, nothing where it goes on |
| `ReplacementGroups.TextBesidePiece` | tgrep-cli/src/matching.rs:389-422 | beside a match's piece stands its expansion on the line where the match starts, and nothing on any other line |
| `ReplacementGroups.PiecesApart` | tgrep-cli/src/matching.rs:389-422 | pieces of matches in order are already in order and apart |
| `FileMatching.LookUpsSucceed` | tgrep-cli/src/matching.rs:424-440 | looking up the first spans of a line one after the other finds each span's own replacement |
| `FileMatching.LineReplacements` | tgrep-cli/src/matching.rs:424-440 | each span gets the replacement found from where the look-up before it stopped |
| `FileMatching.MatchesAreOnLines` | tgrep-cli/src/matching.rs:1071-1081 | the matches without the one past a final newline are a prefix of all matches, and an empty buffer has none |
| `FileMatching.KeptMatches` | tgrep-cli/src/matching.rs:1071-1082 | a multiline search keeps the longest run of its matches within the block limit |
| `FileMatching.FindMultiline` | tgrep-cli/src/matching.rs:1071-1108 | lines, totals, blocks and replacements are those of the kept matches, in each of the four ways to report them |
| `FileMatching.ReportedMultiline` | tgrep-cli/src/matching.rs:1082-1108 | each kept match has its expansion reported beside its piece on the line it starts on, and nothing on the lines it goes on to |
| `FileMatching.FindByLine` | tgrep-cli/src/matching.rs:1109-1123 | lines and totals are those of the plain loop, and every span has its own expanded replacement |
| `FileMatching.ReportedByLine` | tgrep-cli/src/matching.rs:1109-1123 | each span of a hit has the expansion of its own match reported beside it |
| `FileMatching.TotalIsAllSpans` | tgrep-cli/src/matching.rs:1109-1123 | the match total counts all spans of the hits |
| `FileMatching.Find` | tgrep-cli/src/matching.rs:1065-1131 | a limit of zero finds nothing; any other search finds what its mode promises, on lines of the file in ascending order, with blocks one line or more apart |
| `EmitBlocks.EmitPlain` | tgrep-cli/src/matching.rs:1497-1528 | plain output has one row for each rewritten line |
| `EmitBlocks.PlainRowsJoin` | tgrep-cli/src/matching.rs:1497-1528 | plain rows with their terminators are the block's rewritten text |
| `BlockRows.PlainRowShows` | tgrep-cli/src/matching.rs:1497-1528 | a plain row is its line of the rewritten text, with that line's number, place and terminator, marks the replaced bytes on it, and has the column of the block's first match |
| `EmitBlocks.RowSpansHold` | tgrep-cli/src/matching.rs:1497-1528 | a plain row marks exactly the bytes that lie in a replacement |
| `EmitBlocks.EmitOnlyMatching` | tgrep-cli/src/matching.rs:1431-1463 | under `-o` there is a row for each part of a replacement on each line |
| `EmitBlocks.OnlyRowPosition` | tgrep-cli/src/matching.rs:1431-1463 | column plus shift is where the replacement starts in the rewritten block, counted from one |
| `EmitBlocks.OnlyRowsKeep` | tgrep-cli/src/matching.rs:1431-1463 | `-o` rows are every replacement byte outside the line terminators, once and in order |
| `BlockRows.OnlyRowsShow` | tgrep-cli/src/matching.rs:1428-1463 | the rows of `-o` are the parts of the replacements on the lines, all of them and in order, each on its line and at the column of its match |
| `BlockOutput.EmitVimgrep` | tgrep-cli/src/matching.rs:1464-1496 | under `--vimgrep` each replacement gets the row of the first line it touches, and none if it touches no line |
| `BlockOutput.VimRowPosition` | tgrep-cli/src/matching.rs:1464-1496 | column plus shift is where the replacement starts in its row, offset plus shift where the row starts |
| `BlockRows.VimRowsShow` | tgrep-cli/src/matching.rs:1464-1496 | there is one row for each replacement that is on a line, in order; it shows the line the replacement starts on, with that line's number, place and terminator, marks just that replacement, and column and shift lead to it |
| `BlockOutput.EmitBlock` | tgrep-cli/src/matching.rs:1417-1547 | every block emits at least one row in all three modes: the mode's rows or, when there are none, one hidden row |
| `BlockOutput.HiddenMeaning` | tgrep-cli/src/matching.rs:1530-1546 | the hidden row stands exactly for an empty rewrite, for no replacement byte outside terminators under `-o`, and, under `--vimgrep`, for replacements that are all empty and at row starts or at the end |
| `BlockOutput.VimLineNone` | tgrep-cli/src/matching.rs:1464-1476 | under `--vimgrep` a replacement is on no line if and only if it is empty and stands where a row starts or at the end of the text |
| `BlockRows.BlockEventsShow` | tgrep-cli/src/matching.rs:1417-1547 | so for all events of a block in each mode, or there is nothing to show and one hidden, empty row at its start |
| `Traversal.EmitHit` | tgrep-cli/src/matching.rs:1174-1292 | one hit becomes a row beside its replacements, a row for each match or replacement under `-o`, or one row for the line, rewritten or not |
| `LineRows.OnlyMatchingRow` | tgrep-cli/src/matching.rs:1234-1252 | under `-o` a hit has one row for each span, and the row is the stretch of the buffer at the offset it reports, on the line it reports |
| `LineRows.OnlyReplacedRow` | tgrep-cli/src/matching.rs:1204-1232 | under `-o -r` a hit has one row for each match of its line, which is the match's replacement and stands in the rewritten line where column and shift say |
| `LineRows.WholeLineRow` | tgrep-cli/src/matching.rs:1182-1292 | any other hit has one row at the start of its line, which shows and marks the line itself unless it is rewritten, and carries the replacements reported |
| `LineRows.EventsInPlace` | tgrep-cli/src/matching.rs:1174-1342 | whatever goes out by lines is on a line to be shown, whose number is that of the offset reported, and starts it unless it shows a match alone |
| `Traversal.ReplacementRowPosition` | tgrep-cli/src/matching.rs:1204-1232 | under `-o -r` column plus shift is where `replace_all` puts the replacement in the rewritten line, and that is the text the row shows |
| `Traversal.ColumnPosition` | tgrep-cli/src/matching.rs:1244-1292 | under `-r` a hit has one row, whose `j`-th column plus its shift is where the replacement of the line's `j`-th match stands in it, and the row marks it there |
| `Traversal.LineSearchColumns` | tgrep-cli/src/matching.rs:1244-1292 | after a line search each column plus its shift is where the replacement of the hit's own match stands |
| `Traversal.ForEachLine` | tgrep-cli/src/matching.rs:1294-1342 | the lines visited are exactly those to be shown, ascending, each once, each hit where its line is |
| `Traversal.EveryHitShown` | tgrep-cli/src/matching.rs:1294-1342 | every hit's line is shown and its hit is found there |
| `Traversal.NothingBetweenHits` | tgrep-cli/src/matching.rs:1312-1317 | without context no line between hits is shown |
| `Traversal.ShownMeaning` | tgrep-cli/src/matching.rs:1294-1342 | the lines shown are all of them under `--passthru`, and else those from `before` lines before a hit to `after` lines after it |
| `Traversal.ForEachBlock` | tgrep-cli/src/matching.rs:1353-1406 | every block is emitted once and every line outside blocks that is to be shown once, in source order, and no line of a block as context |
| `Traversal.ForEach` | tgrep-cli/src/matching.rs:1161-1342 | output goes by blocks when there are any and by lines otherwise |
| `Traversal.WindowOfBlocks` | tgrep-cli/src/matching.rs:1384-1390 | context is measured from the source lines blocks cover |
| `Traversal.OutsideMeaning` | tgrep-cli/src/matching.rs:1353-1406 | the lines shown between blocks are those in no block that are within `before` or `after` lines of one, or all such lines under `--passthru` |
| `SearchModes.LineMatchIsKept` | tgrep-cli/src/matching.rs:612-641 | for a pattern that cannot match a newline, a line found by line search is found by `-U` |
| `SearchModes.KeptLineMatches` | tgrep-cli/src/matching.rs:612-641 | a line found by `-U` is found by line search unless a `\r` was stripped from it |
| `SearchModes.SameLines` | tgrep-cli/src/matching.rs:1065-1123 | for a pattern that cannot match a newline and any one limit the two results of `find` have hits on the same lines of a buffer whose lines lost no `\r`, clipped or not; without a limit, on every line that lost none |
| `SearchModes.MultilineHitLines` | tgrep-cli/src/matching.rs:1071-1108 | `-U` hits the lines its kept matches lie on, or under `--vimgrep` without blocks those they start on |
| `SearchModes.MultilineHitRanges` | tgrep-cli/src/matching.rs:1071-1108 | the spans of such a hit hold just the text bytes in a kept match, or in one that starts there |
| `SearchModes.LineSearchFirst` | tgrep-cli/src/matching.rs:1681-1713 | a line search hits the first matching lines, all or as many as the limit allows |
| `SearchModes.MultilineFirst` | tgrep-cli/src/matching.rs:1071-1108 | so does `-U`, which limits blocks of the buffer's matches, where no line lost a `\r` |
| `SearchModes.BlocksAreLines` | tgrep-cli/src/matching.rs:136-170 | matches that hold no newline form as many blocks as they touch lines |
| `SearchModes.ModesAgreeExactly` | tgrep-cli/src/matching.rs:89-105 | both searches agree on a line for all such patterns if and only if no `\r` was stripped from it |
| `SpanAgreement.SearchAgrees` | tgrep-cli/src/matching.rs:1549-1555 | for a steady engine, searching a line finds what searching the buffer finds while that is on the line, and else nothing |
| `SpanAgreement.MatchesOnLine` | tgrep-cli/src/matching.rs:510-530 | the buffer's matches on a line, moved to it, are the line's matches |
| `SpanAgreement.RangesAreMatches` | tgrep-cli/src/matching.rs:190-225 | on a line that lost no `\r`, what `-U` reports after grouping is what a line search finds there |
| `SpanAgreement.SpansAgreeExactly` | tgrep-cli/src/matching.rs:89-105 | `-U` reports a line's own matches, for every steady engine and pattern that cannot match a newline, if and only if the line lost no `\r` |
| `SpanAgreement.MultilineHitSpans` | tgrep-cli/src/matching.rs:1071-1108 | a `-U` hit on a line that lost no `\r` has all the line's matches for spans, whatever the limit and clipped or not |
| `SpanAgreement.SameHitsBothWays` | tgrep-cli/src/matching.rs:1065-1123 | with the same limit, clipped or not, the two searches have equal hits, lines and spans, in a buffer whose lines lost no `\r` |
| `SpanAgreement.MultilineColumns` | tgrep-cli/src/matching.rs:1244-1292 | under `-U -r`, with any limit and with or without `--vimgrep`, columns and shifts lead to each match's own replacement on lines that lost no `\r` |
| `SpanAgreement.ColumnsHoldExactly` | tgrep-cli/src/matching.rs:1244-1292 | a line has every match reported at its own replacement, in every `-U -r` search for a pattern that cannot match a newline by a steady engine, if and only if it lost no `\r` |
| `SpanAgreement.ReturnLosesReplacement` | tgrep-cli/src/matching.rs:1255-1272 | on every line that lost a `\r` some match is a hit of `-U -r` whose row shows the line as it was, with nothing replaced or marked |
| `SpanAgreement.ExampleHits` | tgrep-cli/src/matching.rs:1071-1108 | `-U` with a pattern that matches `ab\r` or `b`, on `ab\r\n`, has one hit, with the span of both letters |
| `SpanAgreement.ReturnMovesColumn` | tgrep-cli/src/matching.rs:1255-1272 | there `-r` reports that match, at column 1, at column 2, where the replacement of the `b` stands |
| `WholeOutput.PassthruCovers` | tgrep-cli/src/matching.rs:1362-1376 | under `--passthru` every line is in an emitted block or is emitted itself |
| `WholeOutput.OneItemALine` | tgrep-cli/src/matching.rs:1353-1406 | no line is emitted twice, or both as context and in a block |
| `WholeOutput.Contiguous` | tgrep-cli/src/matching.rs:1362-1376 | under `--passthru` each emitted item starts on the line after the one before it, from the first line to the last |
| `WholeOutput.ItemsAreRewrite` | tgrep-cli/src/matching.rs:1353-1376 | block texts and lines outside blocks, in the order of a `--passthru` tour, are the whole buffer with every match of the blocks replaced |
| `WholeOutput.BlockPrints` | tgrep-cli/src/matching.rs:1497-1546 | in plain output a block's events, the hidden row included, print its rewritten text |
| `WholeOutput.PassthruPrintsRewrite` | tgrep-cli/src/matching.rs:1353-1376 | the events of `-U --replace --passthru`, shown one after the other with the terminators they report, are the whole buffer with every kept match replaced |
| `LineOutput.LineEventsPrint` | tgrep-cli/src/matching.rs:1174-1310 | without `-o` a line's event, with the terminator it reports, shows the line, rewritten where `-r` applies |
| `LineOutput.PassthruPrintsLines` | tgrep-cli/src/matching.rs:1294-1310 | the events of `--passthru` by lines, shown in order, are every line, rewritten where `-r` applies |
| `LineOutput.PassthruPrintsBuffer` | tgrep-cli/src/matching.rs:1294-1310 | without `-r` they are the buffer |
| `LineRewrites.RewriteMoves` | tgrep-cli/src/matching.rs:554-571 | rewriting a slice of a text is rewriting that stretch of the text |
| `LineRewrites.LineShowsPart` | tgrep-cli/src/matching.rs:1244-1292 | a line of a `-U -r` search shows its stretch of the buffer with every kept match replaced, if the expansion of a match depends on its text alone |
| `LineRewrites.PassthruPrintsLineRewrite` | tgrep-cli/src/matching.rs:1294-1310 | going by lines, `-U -r --passthru` prints the whole buffer with every kept match replaced, for such expansions, a pattern that cannot match a newline, a steady engine and lines that lost no `\r` |
| `Utf8.EncodeDecode` | tgrep-cli/src/search.rs:2188-2192 | every scalar value's encoding is a character of the byte grammar and decodes back |
| `Utf8.DecodeEncode` | tgrep-cli/src/search.rs:2188-2192 | every character of the grammar encodes a scalar value, and only that way |
| `Utf8.FrontErrorMeaning` | tgrep-cli/src/search.rs:2174-2177 | an error without a length means exactly that more input could complete a character |
| `Utf8.NoCharAfterError` | tgrep-cli/src/search.rs:2174-2177 | an error with a length is final whatever follows |
| `Utf8.FromUtf8Meaning` | tgrep-cli/src/search.rs:2188-2192 | what precedes the reported place is valid and no character starts there |
| `Utf8.ChunkProgressMeaning` | tgrep-cli/src/search.rs:2185-2199 | a chunk is given up only if the rest is not valid or too wide; otherwise the scan moves on |
| `Utf8.ValidateUtf8AndFindNul` | tgrep-cli/src/search.rs:2178-2208 | for any chunk size the result is the first NUL if the buffer is valid UTF-8 with no character wider than a chunk, and nothing otherwise |
| `Utf8.ScanText` | tgrep-cli/src/search.rs:2178-2208 | at the size the scan uses, the result is the first NUL of the buffer if it is valid UTF-8, and nothing otherwise |
| `Utf8.WideChunksAreExact` | tgrep-cli/src/search.rs:2160-2181 | from four bytes up every valid buffer is accepted |
| `Utf8.NarrowChunksReject` | tgrep-cli/src/search.rs:2193-2196 | below four bytes a valid character is rejected |
| `JsonOutput.OutputWriter.EnsureJsonBegin` | tgrep-cli/src/output.rs:410-429 | another file is closed first, and the open file is not begun again |
| `JsonOutput.OutputWriter.FinishJsonFile` | tgrep-cli/src/output.rs:431-461 | the open file's end record is printed, its counters join the totals and start anew |
| `JsonOutput.OutputWriter.WriteMatch` | tgrep-cli/src/output.rs:644-765 | a visible match row is printed and counted, its line once; a hidden one changes nothing |
| `JsonOutput.OutputWriter.WriteContextLine` | tgrep-cli/src/output.rs:605-628 | a context row is printed and its bytes counted |
| `JsonOutput.OutputWriter.WriteBinaryNote` | tgrep-cli/src/output.rs:394-398 | the offset is kept for the end record |
| `JsonOutput.OutputWriter.Finish` | tgrep-cli/src/output.rs:816-834 | the open file is closed and one summary printed |
| `JsonOutput.Invocation` | tgrep-cli/src/output.rs:394-834 | the writer object, driven by any calls and one `finish`, prints the log the lemmas are about |
| `JsonOutput.StepConsistent` | tgrep-cli/src/output.rs:394-461 | after every call the counters are those of the rows printed since the open file's begin record, and the totals those of the end records |
| `JsonOutput.RunConsistent` | tgrep-cli/src/output.rs:394-834 | so they are over any run of calls |
| `JsonOutput.InvocationLog` | tgrep-cli/src/output.rs:805-834 | the output is groups of begin, rows and end, then one summary whose bytes, matches and matched lines are the sums of the end records and count the rows printed |
| `JsonOutput.LogFollowsCalls` | tgrep-cli/src/output.rs:394-765 | the log but for end records and summary is the rows the calls ask for, in order and as asked, with a begin record wherever a file is opened; each end record tells the size last announced when its file was opened |
| `JsonOutput.RowsFollowCalls` | tgrep-cli/src/output.rs:605-765 | the rows printed are one for each context call and each match call that is not hidden |
| `JsonOutput.SummaryCountsCalls` | tgrep-cli/src/output.rs:816-834 | the matches of the summary are those of the match calls that are not hidden |
| `JsonOutput.InvocationNotes` | tgrep-cli/src/output.rs:394-461 | every end record carries the last binary offset noted since its begin record, and none when none was |
| `JsonOutput.WholeHistoryPrints` | tgrep-cli/src/output.rs:394-461 | the records of the history the notes are read from are those printed |
| `JsonOutput.ChangesCountLines` | tgrep-cli/src/output.rs:724-730 | for rows in line order the matched lines of a file are its distinct matching lines |
| `Base64.Base64Encode` | tgrep-cli/src/output.rs:988-1004 | the chunk loop computes the encoding |
| `Base64.Base64Decode` | tgrep-cli/src/output.rs:1007-1026 | the chunk loop computes the decoding, malformed text included |
| `Base64.RoundTrip` | tgrep-cli/src/output.rs:985-1026 | decoding an encoding gives the bytes back, and its length is four for every three bytes begun |
| `Base64.PaddingRule` | tgrep-cli/src/output.rs:988-1004 | an encoding ends in as many pads as bytes are missing from its last three, and has none elsewhere |
| `Base64.DecodeEncodeExactly` | tgrep-cli/src/output.rs:1007-1026 | encoding a decoding gives the text back if and only if the unused bits of its last character are zero |
| `Base64.NotCanonicalExample` | tgrep-cli/src/output.rs:1007-1026 | `Zh==` and `Zg==` decode to the same byte |
| `Base64.ValueInvertsDigit` | tgrep-cli/src/output.rs:985-985 | the alphabet has 64 different characters, none of them the pad |
| `Base64.AlphabetIs` | tgrep-cli/src/output.rs:985-985 | the alphabet is that of section 4 of RFC 4648, in its order |
| `Base64.ChunkBits` | tgrep-cli/src/output.rs:988-1004 | the characters of an encoded chunk spell the bits of its bytes, the first bits first |
| `Base64.DecodesExactly` | tgrep-cli/src/output.rs:1007-1026 | a text decodes if and only if its length is a multiple of four and every character is of the alphabet but for one or two pads at its end |
| `PathIndex.WritePaths` | tgrep-core/src/path_index.rs:75-107 | the file is the one the format prescribes, and writing fails exactly on a path of 2^32 bytes or more |
| `PathIndex.ReadFilenameIndex` | tgrep-core/src/path_index.rs:117-187 | the reader's loop, on any bytes, gives the paths or the first error in order, without reading out of bounds |
| `PathIndex.PathsRoundTrip` | tgrep-core/src/path_index.rs:91-104 | reading written paths gives them back if and only if each is acceptable |
| `PathIndex.ReadWritten` | tgrep-core/src/path_index.rs:75-187 | reading what was written gives the same index, and succeeds if and only if its paths are valid UTF-8 index paths and its record parses |
| `PathIndex.WrittenRead` | tgrep-core/src/path_index.rs:117-187 | any bytes the reader accepts are exactly what writing its result produces |
| `PathIndex.AcceptedExactly` | tgrep-core/src/path_index.rs:117-187 | the reader accepts exactly the bytes that writing an acceptable index produces |
| `PathIndex.PathErrorMeaning` | tgrep-core/src/path_index.rs:154-186 | a refused list is a run of good records followed by the record the error names, with the fault it names, or by bytes past the last one |
| `PathIndex.HeaderErrorMeaning` | tgrep-core/src/path_index.rs:117-158 | a short or unknown header, a visibility record that is cut off, out of bounds or malformed, and a count the file cannot hold are each reported by their own error and only then |
| `PathIndex.ValidIndexPathExactly` | tgrep-core/src/rooted.rs:27-41 | a path is refused if and only if it holds a backslash, a NUL, on Windows a colon, or a component between slashes or ends that is empty, `.` or `..` |
| `PathIndex.LittleEndian` | tgrep-core/src/path_index.rs:138-163 | integers are stored low byte first |
| `PathIndex.FormatExample` | tgrep-core/src/path_index.rs:75-107 | the very bytes of a file of one path, with and without a visibility record |

## Left out

- Regex engine internals: `search` is any function that returns some leftmost
  match, so which end it prefers, and capture groups, are not modelled; the
  expansion of a replacement template is any function of the match. Where spans
  are compared the engine is asked to be steady: which match it prefers at a place
  depends neither on where the search began nor on text past the line.
- Pattern syntax: the syntax trees cover literals, escapes, classes, looks,
  groups, repetition, concatenation and alternation, with case ignored or not and
  Unicode on or off for the whole pattern; in-pattern flags, verbose mode and CRLF
  mode are not among them. Classes carry what they hold, and text its case
  variants; all that is asked of these tables is that whether a class or a text
  holds a newline does not depend on the setting.
- Building the pattern: smart case, combining patterns, `-x`, `-w`, size limits
  and the prefilter of the backtracking engine.
- Errors of the backtracking engine, which `find` and `for_each` pass on.
- `for_each` callbacks that fail: the events are returned as a list, so stopping
  halfway is not modelled.
- Iterators: the candidate lines are a list, not computed on demand; a sorted set
  is walked by going through the lines in order.
- Caching of the newline analysis.
- UTF-8 boundaries in slices: content is bytes, except in the validation scan.
- Machine integers: offsets, counts and context sizes do not overflow.
- Text-mode output: headings, separators, colours, trimming, `--max-columns`,
  counts and file lists; two separators can follow each other there.
- The text of JSON records and elapsed times: a record's printed length is any
  function of the record.
- `JsonOutput.OutputWriter.WriteMatch`: the fields of a row the counters do not
  look at are one opaque value, and write errors are not modelled.
- `PathIndex.WritePaths`: what a failed write leaves on disk is not modelled, and
  the visibility record is the bytes that are stored.
- `PathIndex.ReadFilenameIndex`: the file is its bytes, a missing file is not
  modelled, and on Windows only the colon rule is.
- Decoding repairs, memory maps, file reading, walking, the index, the query
  planner, the server and the command line.
