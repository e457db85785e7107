/** The JSON side of the output writer: begin, row, end and summary records, and
    the counters that go into them. */
module JsonOutput {
  import opened Bytes

  datatype Stats = Stats(
    searches: nat,
    searchesWithMatch: nat,
    bytesSearched: nat,
    bytesPrinted: nat,
    matchedLines: nat,
    matches: nat)
  {
    function Add(other: Stats): Stats {
      Stats(searches + other.searches, searchesWithMatch + other.searchesWithMatch,
            bytesSearched + other.bytesSearched, bytesPrinted + other.bytesPrinted,
            matchedLines + other.matchedLines, matches + other.matches)
    }
  }

  const ZERO: Stats := Stats(0, 0, 0, 0, 0, 0)

  /** One line of JSON output. `data` stands for the fields of a row that the
      counters do not look at. */
  datatype Record =
    | Begin(path: bytes)
    | MatchRow(path: bytes, lineNumber: nat, submatches: nat, data: bytes)
    | ContextRow(path: bytes, lineNumber: nat, data: bytes)
    | End(path: bytes, binaryOffset: Option<nat>, stats: Stats)
    | Summary(stats: Stats)

  /** Length of a record as printed, which is the serializer's business. */
  type Size = Record -> nat

  /** The writer's state in JSON mode. */
  datatype Writer = Writer(
    currentFile: Option<bytes>,
    fileStats: Stats,
    lastMatchLine: Option<nat>,
    totalStats: Stats,
    pendingBytes: nat,
    binaryOffset: Option<nat>,
    allBytes: nat,
    allSearches: nat,
    printed: seq<Record>)

  const FRESH: Writer := Writer(None, ZERO, None, ZERO, 0, None, 0, 0, [])

  // ---------------------------------------------------------------------------
  // Steps

  function EndStats(s: Stats): Stats {
    if s.matchedLines > 0 then s.(searchesWithMatch := 1) else s
  }

  /** Close the open file, if there is one. */
  function FinishFile(w: Writer): Writer {
    match w.currentFile
    case None => w
    case Some(file) =>
      var stats := EndStats(w.fileStats);
      w.(currentFile := None, binaryOffset := None, fileStats := ZERO, lastMatchLine := None,
         totalStats := w.totalStats.Add(stats), printed := w.printed + [End(file, w.binaryOffset, stats)])
  }

  /** Open `file` unless it is the open one, closing another first. */
  function EnsureBegin(w: Writer, size: Size, file: bytes): Writer {
    if w.currentFile == Some(file) then w
    else
      var c := FinishFile(w);
      var record := Begin(file);
      c.(currentFile := Some(file), lastMatchLine := None, printed := c.printed + [record],
         fileStats := c.fileStats.(searches := 1, bytesSearched := c.pendingBytes,
                                   bytesPrinted := c.fileStats.bytesPrinted + size(record)))
  }

  function AddContext(w: Writer, size: Size, file: bytes, line: nat, data: bytes): Writer {
    var b := EnsureBegin(w, size, file);
    var record := ContextRow(file, line, data);
    b.(fileStats := b.fileStats.(bytesPrinted := b.fileStats.bytesPrinted + size(record)),
       printed := b.printed + [record])
  }

  function AddMatch(w: Writer, size: Size, file: bytes, line: nat, submatches: nat, data: bytes): Writer {
    var b := EnsureBegin(w, size, file);
    var record := MatchRow(file, line, submatches, data);
    b.(fileStats := b.fileStats.(
         matchedLines := b.fileStats.matchedLines + (if b.lastMatchLine != Some(line) then 1 else 0),
         matches := b.fileStats.matches + submatches,
         bytesPrinted := b.fileStats.bytesPrinted + size(record)),
       lastMatchLine := Some(line), printed := b.printed + [record])
  }

  /** The calls a search makes on the writer. A hidden match prints no record. */
  datatype Call =
    | NoteBytesSearched(bytes: nat)
    | SetFileBytesSearched(bytes: nat)
    | WriteBinaryNote(file: bytes, offset: nat)
    | WriteContextLine(file: bytes, line: nat, data: bytes)
    | WriteMatch(file: bytes, line: nat, submatches: nat, hidden: bool, data: bytes)
    | Flush

  function Step(w: Writer, size: Size, call: Call): Writer {
    match call
    case NoteBytesSearched(n) => w.(pendingBytes := n, allBytes := w.allBytes + n, allSearches := w.allSearches + 1)
    case SetFileBytesSearched(n) => w.(pendingBytes := n)
    case WriteBinaryNote(file, offset) => EnsureBegin(w, size, file).(binaryOffset := Some(offset))
    case WriteContextLine(file, line, data) => AddContext(w, size, file, line, data)
    case WriteMatch(file, line, submatches, hidden, data) =>
      if hidden then w else AddMatch(w, size, file, line, submatches, data)
    case Flush => FinishFile(w)
  }

  function Run(size: Size, calls: seq<Call>): Writer {
    if calls == [] then FRESH else Step(Run(size, calls[..|calls| - 1]), size, calls[|calls| - 1])
  }

  /** End the invocation: one summary, over everything that was searched. */
  function Finished(w: Writer): Writer {
    var c := FinishFile(w);
    var stats := c.totalStats.(searches := c.allSearches, bytesSearched := c.allBytes);
    c.(totalStats := stats, printed := c.printed + [Summary(stats)])
  }

  // ---------------------------------------------------------------------------
  // The writer object

  class OutputWriter {
    const size: Size
    var currentFile: Option<bytes>
    var fileStats: Stats
    var lastMatchLine: Option<nat>
    var totalStats: Stats
    var pendingBytes: nat
    var binaryOffset: Option<nat>
    var allBytes: nat
    var allSearches: nat
    var printed: seq<Record>

    function State(): Writer
      reads this
    {
      Writer(currentFile, fileStats, lastMatchLine, totalStats, pendingBytes, binaryOffset, allBytes, allSearches,
             printed)
    }

    constructor (size: Size)
      ensures this.size == size && State() == FRESH
    {
      this.size := size;
      currentFile, fileStats, lastMatchLine, totalStats := None, ZERO, None, ZERO;
      pendingBytes, binaryOffset, allBytes, allSearches, printed := 0, None, 0, 0, [];
    }

    method NoteBytesSearched(bytes: nat)
      modifies this
      ensures State() == Step(old(State()), size, Call.NoteBytesSearched(bytes))
    {
      SetFileBytesSearched(bytes);
      allBytes := allBytes + bytes;
      allSearches := allSearches + 1;
    }

    method SetFileBytesSearched(bytes: nat)
      modifies this
      ensures State() == Step(old(State()), size, Call.SetFileBytesSearched(bytes))
    {
      pendingBytes := bytes;
    }

    method FinishJsonFile()
      modifies this
      ensures State() == FinishFile(old(State()))
    {
      if currentFile == None {
        return;
      }
      var file := currentFile.value;
      currentFile := None;
      if fileStats.matchedLines > 0 {
        fileStats := fileStats.(searchesWithMatch := 1);
      }
      var offset := binaryOffset;
      binaryOffset := None;
      printed := printed + [End(file, offset, fileStats)];
      totalStats := totalStats.Add(fileStats);
      fileStats := ZERO;
      lastMatchLine := None;
    }

    method EnsureJsonBegin(file: bytes)
      modifies this
      ensures State() == EnsureBegin(old(State()), size, file)
    {
      if currentFile == Some(file) {
        return;
      }
      FinishJsonFile();
      var record := Begin(file);
      fileStats := fileStats.(searches := 1, bytesSearched := pendingBytes);
      fileStats := fileStats.(bytesPrinted := fileStats.bytesPrinted + size(record));
      printed := printed + [record];
      currentFile := Some(file);
      lastMatchLine := None;
    }

    method WriteBinaryNote(file: bytes, offset: nat)
      modifies this
      ensures State() == Step(old(State()), size, Call.WriteBinaryNote(file, offset))
    {
      EnsureJsonBegin(file);
      binaryOffset := Some(offset);
    }

    method WriteContextLine(file: bytes, line: nat, data: bytes)
      modifies this
      ensures State() == Step(old(State()), size, Call.WriteContextLine(file, line, data))
    {
      EnsureJsonBegin(file);
      var record := ContextRow(file, line, data);
      fileStats := fileStats.(bytesPrinted := fileStats.bytesPrinted + size(record));
      printed := printed + [record];
    }

    method WriteMatch(file: bytes, line: nat, submatches: nat, hidden: bool, data: bytes)
      modifies this
      ensures State() == Step(old(State()), size, Call.WriteMatch(file, line, submatches, hidden, data))
    {
      if hidden {
        return;
      }
      EnsureJsonBegin(file);
      if lastMatchLine != Some(line) {
        fileStats := fileStats.(matchedLines := fileStats.matchedLines + 1);
        lastMatchLine := Some(line);
      }
      fileStats := fileStats.(matches := fileStats.matches + submatches);
      var record := MatchRow(file, line, submatches, data);
      fileStats := fileStats.(bytesPrinted := fileStats.bytesPrinted + size(record));
      printed := printed + [record];
    }

    method Flush()
      modifies this
      ensures State() == Step(old(State()), size, Call.Flush)
    {
      FinishJsonFile();
    }

    method Finish()
      modifies this
      ensures State() == Finished(old(State()))
    {
      FinishJsonFile();
      totalStats := totalStats.(searches := allSearches, bytesSearched := allBytes);
      printed := printed + [Summary(totalStats)];
    }
  }

  /** A whole invocation: any calls at all, then one `finish`. */
  method Invocation(size: Size, calls: seq<Call>) returns (records: seq<Record>)
    ensures records == Finished(Run(size, calls)).printed
  {
    var w := new OutputWriter(size);
    var k := 0;
    while k < |calls|
      invariant 0 <= k <= |calls|
      invariant w.size == size && w.State() == Run(size, calls[..k])
    {
      assert calls[..k + 1][..k] == calls[..k];
      match calls[k] {
        case NoteBytesSearched(n) => w.NoteBytesSearched(n);
        case SetFileBytesSearched(n) => w.SetFileBytesSearched(n);
        case WriteBinaryNote(file, offset) => w.WriteBinaryNote(file, offset);
        case WriteContextLine(file, line, data) => w.WriteContextLine(file, line, data);
        case WriteMatch(file, line, submatches, hidden, data) => w.WriteMatch(file, line, submatches, hidden, data);
        case Flush => w.Flush();
      }
      k := k + 1;
    }
    assert calls[..k] == calls;
    w.Finish();
    records := w.printed;
  }

  // ---------------------------------------------------------------------------
  // Reading the log back

  /** A reader's place in a log: the file whose records are open, those records,
      and the end records seen so far. */
  datatype Place = Place(group: seq<Record>, ends: seq<Stats>) {
    predicate IsOpen(file: bytes) {
      group != [] && group[0] == Begin(file)
    }
  }

  /** Printed length of records that are not end or summary records. */
  function TotalSize(size: Size, records: seq<Record>): nat {
    if records == [] then 0
    else
      var r := records[|records| - 1];
      TotalSize(size, records[..|records| - 1]) + if r.End? || r.Summary? then 0 else size(r)
  }

  function TotalSubmatches(records: seq<Record>): nat {
    if records == [] then 0
    else
      var r := records[|records| - 1];
      TotalSubmatches(records[..|records| - 1]) + if r.MatchRow? then r.submatches else 0
  }

  /** Line of the last match record of a group. */
  function LastMatch(group: seq<Record>): Option<nat> {
    if group == [] then None
    else if group[|group| - 1].MatchRow? then Some(group[|group| - 1].lineNumber)
    else LastMatch(group[..|group| - 1])
  }

  /** Match records whose line differs from the match record before them. */
  function LineChanges(group: seq<Record>): nat {
    if group == [] then 0
    else
      var init, r := group[..|group| - 1], group[|group| - 1];
      LineChanges(init) + if r.MatchRow? && LastMatch(init) != Some(r.lineNumber) then 1 else 0
  }

  function SumOf(ends: seq<Stats>): Stats {
    if ends == [] then ZERO else SumOf(ends[..|ends| - 1]).Add(ends[|ends| - 1])
  }

  /** What an end record must report for the records of its file. The bytes
      searched are whatever the caller announced. */
  ghost predicate Reports(stats: Stats, size: Size, group: seq<Record>) {
    && stats.searches == 1
    && stats.searchesWithMatch == (if LineChanges(group) > 0 then 1 else 0)
    && stats.bytesPrinted == TotalSize(size, group)
    && stats.matchedLines == LineChanges(group)
    && stats.matches == TotalSubmatches(group)
  }

  /** Read one record, if it may stand at this place. */
  ghost function Next(p: Place, size: Size, r: Record): Option<Place> {
    match r
    case Begin(file) => if p.group == [] then Some(p.(group := [r])) else None
    case MatchRow(file, _, _, _) => if p.IsOpen(file) then Some(p.(group := p.group + [r])) else None
    case ContextRow(file, _, _) => if p.IsOpen(file) then Some(p.(group := p.group + [r])) else None
    case End(file, _, stats) =>
      if p.IsOpen(file) && Reports(stats, size, p.group) then Some(Place([], p.ends + [stats])) else None
    case Summary(_) => None
  }

  /** Read a log that has no summary yet: groups of a begin record, rows of that
      file and an end record that reports them, the last one perhaps open. */
  ghost function Read(size: Size, records: seq<Record>): Option<Place> {
    if records == [] then Some(Place([], []))
    else
      match Read(size, records[..|records| - 1])
      case None => None
      case Some(p) => Next(p, size, records[|records| - 1])
  }

  /** What holds of the writer between calls. */
  ghost predicate Consistent(w: Writer, size: Size) {
    match Read(size, w.printed)
    case None => false
    case Some(p) =>
      && (match w.currentFile
          case None => p.group == [] && w.fileStats == ZERO && w.binaryOffset == None
          case Some(file) =>
            && p.IsOpen(file)
            && w.lastMatchLine == LastMatch(p.group)
            && w.fileStats.searches == 1 && w.fileStats.searchesWithMatch == 0
            && w.fileStats.bytesPrinted == TotalSize(size, p.group)
            && w.fileStats.matchedLines == LineChanges(p.group)
            && w.fileStats.matches == TotalSubmatches(p.group))
      && w.totalStats == SumOf(p.ends)
      && TotalSize(size, w.printed) == w.totalStats.bytesPrinted + w.fileStats.bytesPrinted
      && TotalSubmatches(w.printed) == w.totalStats.matches + w.fileStats.matches
  }

  lemma Extend(size: Size, records: seq<Record>, r: Record)
    ensures (records + [r])[..|records|] == records
    ensures Read(size, records + [r]) == match Read(size, records) case None => None case Some(p) => Next(p, size, r)
    ensures TotalSize(size, records + [r]) == TotalSize(size, records) + if r.End? || r.Summary? then 0 else size(r)
    ensures TotalSubmatches(records + [r]) == TotalSubmatches(records) + if r.MatchRow? then r.submatches else 0
    ensures LastMatch(records + [r]) == if r.MatchRow? then Some(r.lineNumber) else LastMatch(records)
    ensures LineChanges(records + [r])
         == LineChanges(records) + if r.MatchRow? && LastMatch(records) != Some(r.lineNumber) then 1 else 0
  {
    assert (records + [r])[..|records|] == records;
  }

  lemma SumSnoc(ends: seq<Stats>, s: Stats)
    ensures SumOf(ends + [s]) == SumOf(ends).Add(s)
  {
    assert (ends + [s])[..|ends|] == ends;
  }

  lemma FinishFileConsistent(w: Writer, size: Size)
    requires Consistent(w, size)
    ensures Consistent(FinishFile(w), size) && FinishFile(w).currentFile == None
  {
    if w.currentFile.Some? {
      hide TotalSize, TotalSubmatches, LastMatch, LineChanges, Read, SumOf;
      var stats := EndStats(w.fileStats);
      var p := Read(size, w.printed).value;
      Extend(size, w.printed, End(w.currentFile.value, w.binaryOffset, stats));
      SumSnoc(p.ends, stats);
    }
  }

  lemma EmptyGroup(size: Size)
    ensures TotalSize(size, []) == 0 && TotalSubmatches([]) == 0 && LastMatch([]) == None && LineChanges([]) == 0
  {
  }

  lemma EnsureBeginConsistent(w: Writer, size: Size, file: bytes)
    requires Consistent(w, size)
    ensures Consistent(EnsureBegin(w, size, file), size) && EnsureBegin(w, size, file).currentFile == Some(file)
  {
    if w.currentFile != Some(file) {
      hide TotalSize, TotalSubmatches, LastMatch, LineChanges, Read, SumOf;
      var c := FinishFile(w);
      FinishFileConsistent(w, size);
      Extend(size, c.printed, Begin(file));
      Extend(size, [], Begin(file));
      EmptyGroup(size);
      assert [] + [Begin(file)] == [Begin(file)];
    }
  }

  /** Every call keeps the writer consistent with the log it has printed. */
  lemma StepConsistent(w: Writer, size: Size, call: Call)
    requires Consistent(w, size)
    ensures Consistent(Step(w, size, call), size)
  {
    hide TotalSize, TotalSubmatches, LastMatch, LineChanges, Read, SumOf, EnsureBegin, FinishFile;
    match call
    case NoteBytesSearched(_) =>
    case SetFileBytesSearched(_) =>
    case WriteBinaryNote(file, _) =>
      EnsureBeginConsistent(w, size, file);
    case WriteContextLine(file, line, data) =>
      EnsureBeginConsistent(w, size, file);
      RowConsistent(EnsureBegin(w, size, file), size, ContextRow(file, line, data));
    case WriteMatch(file, line, submatches, hidden, data) =>
      EnsureBeginConsistent(w, size, file);
      RowConsistent(EnsureBegin(w, size, file), size, MatchRow(file, line, submatches, data));
    case Flush =>
      FinishFileConsistent(w, size);
  }

  /** A row of the open file extends the log and its open group alike. */
  lemma RowConsistent(b: Writer, size: Size, r: Record)
    requires Consistent(b, size)
    requires (r.MatchRow? || r.ContextRow?) && b.currentFile == Some(r.path)
    ensures var p := Read(size, b.printed).value;
            && Read(size, b.printed + [r]) == Some(p.(group := p.group + [r]))
            && p.(group := p.group + [r]).IsOpen(r.path)
            && TotalSize(size, b.printed + [r]) == TotalSize(size, b.printed) + size(r)
            && TotalSize(size, p.group + [r]) == TotalSize(size, p.group) + size(r)
            && TotalSubmatches(b.printed + [r])
                == TotalSubmatches(b.printed) + (if r.MatchRow? then r.submatches else 0)
            && TotalSubmatches(p.group + [r]) == TotalSubmatches(p.group) + (if r.MatchRow? then r.submatches else 0)
            && LastMatch(p.group + [r]) == (if r.MatchRow? then Some(r.lineNumber) else LastMatch(p.group))
            && LineChanges(p.group + [r])
               == LineChanges(p.group) + (if r.MatchRow? && LastMatch(p.group) != Some(r.lineNumber) then 1 else 0)
  {
    hide TotalSize, TotalSubmatches, LastMatch, LineChanges, Read, SumOf;
    var p := Read(size, b.printed).value;
    Extend(size, b.printed, r);
    Extend(size, p.group, r);
  }

  lemma {:induction false} RunConsistent(size: Size, calls: seq<Call>)
    ensures Consistent(Run(size, calls), size)
  {
    if calls != [] {
      hide Step;
      RunConsistent(size, calls[..|calls| - 1]);
      StepConsistent(Run(size, calls[..|calls| - 1]), size, calls[|calls| - 1]);
    }
  }

  function BytesNoted(calls: seq<Call>): nat {
    if calls == [] then 0
    else
      var c := calls[|calls| - 1];
      BytesNoted(calls[..|calls| - 1]) + if c.NoteBytesSearched? then c.bytes else 0
  }

  function SearchesNoted(calls: seq<Call>): nat {
    if calls == [] then 0
    else SearchesNoted(calls[..|calls| - 1]) + if calls[|calls| - 1].NoteBytesSearched? then 1 else 0
  }

  lemma {:induction false} RunCountsSearches(size: Size, calls: seq<Call>)
    ensures Run(size, calls).allBytes == BytesNoted(calls) && Run(size, calls).allSearches == SearchesNoted(calls)
  {
    if calls != [] {
      RunCountsSearches(size, calls[..|calls| - 1]);
    }
  }

  /** An invocation, whatever it searched, prints well-formed groups and then one
      summary. The summary's bytes, matches and matched lines are the sums over
      the end records and count the rows above it; its searches are the files
      noted. */
  lemma InvocationLog(size: Size, calls: seq<Call>) returns (rows: seq<Record>, stats: Stats)
    ensures Finished(Run(size, calls)).printed == rows + [Summary(stats)]
    ensures IsWholeLog(size, rows, stats, SearchesNoted(calls), BytesNoted(calls))
  {
    hide TotalSize, TotalSubmatches, LastMatch, LineChanges, Read, SumOf, Run;
    var w := Run(size, calls);
    RunConsistent(size, calls);
    RunCountsSearches(size, calls);
    FinishFileConsistent(w, size);
    var c := FinishFile(w);
    rows, stats := c.printed, c.totalStats.(searches := c.allSearches, bytesSearched := c.allBytes);
  }

  /** `rows` are whole groups, and `stats` sum up their end records and count what
      is in them, but for the searches, which are given. */
  ghost predicate IsWholeLog(size: Size, rows: seq<Record>, stats: Stats, searches: nat, bytesSearched: nat) {
    && Read(size, rows).Some? && Read(size, rows).value.group == []
    && stats == SumOf(Read(size, rows).value.ends).(searches := searches, bytesSearched := bytesSearched)
    && stats.bytesPrinted == TotalSize(size, rows)
    && stats.matches == TotalSubmatches(rows)
  }

  // ---------------------------------------------------------------------------
  // Matched lines

  /** Lines of the match records of a group. */
  function MatchLines(group: seq<Record>): set<nat> {
    if group == [] then {}
    else MatchLines(group[..|group| - 1]) + if group[|group| - 1].MatchRow? then {group[|group| - 1].lineNumber} else {}
  }

  /** Match records come in line order. */
  predicate LinesInOrder(group: seq<Record>) {
    group == []
    || (LinesInOrder(group[..|group| - 1])
        && (group[|group| - 1].MatchRow? && LastMatch(group[..|group| - 1]).Some? ==>
              LastMatch(group[..|group| - 1]).value <= group[|group| - 1].lineNumber))
  }

  /** As rows come in line order, the matched lines of a file are its distinct
      matching lines, however many rows each has. */
  lemma {:induction false} ChangesCountLines(group: seq<Record>)
    requires LinesInOrder(group)
    ensures LineChanges(group) == |MatchLines(group)|
    ensures match LastMatch(group)
            case None => MatchLines(group) == {}
            case Some(l) => l in MatchLines(group) && forall x | x in MatchLines(group) :: x <= l
  {
    if group != [] {
      ChangesCountLines(group[..|group| - 1]);
    }
  }

  // ---------------------------------------------------------------------------
  // Binary notes

  /** What happens to an invocation, in order: records printed and notes taken. */
  datatype Entry = Out(record: Record) | Note(offset: nat)

  function Outs(records: seq<Record>): (r: seq<Entry>)
    ensures |r| == |records| && forall k | 0 <= k < |r| :: r[k] == Out(records[k])
  {
    seq(|records|, k requires 0 <= k < |records| => Out(records[k]))
  }

  /** A note stands behind what its call prints. */
  function CallEntries(w: Writer, size: Size, call: Call): seq<Entry> {
    StepPrints(w, size, call);
    Outs(Step(w, size, call).printed[|w.printed|..])
    + if call.WriteBinaryNote? then [Note(call.offset)] else []
  }

  /** Printing only ever adds records. */
  lemma StepPrints(w: Writer, size: Size, call: Call)
    ensures w.printed <= Step(w, size, call).printed
  {
  }

  function History(size: Size, calls: seq<Call>): seq<Entry> {
    if calls == [] then []
    else
      var init, call := calls[..|calls| - 1], calls[|calls| - 1];
      History(size, init) + CallEntries(Run(size, init), size, call)
  }

  /** The history with what `finish` adds. */
  function WholeHistory(size: Size, calls: seq<Call>): seq<Entry> {
    var w := Run(size, calls);
    assert w.printed <= Finished(w).printed;
    History(size, calls) + Outs(Finished(w).printed[|w.printed|..])
  }

  /** The last offset noted since the last begin or end record. */
  function NoteOf(h: seq<Entry>): Option<nat> {
    if h == [] then None
    else
      match h[|h| - 1]
      case Note(offset) => Some(offset)
      case Out(r) => if r.Begin? || r.End? then None else NoteOf(h[..|h| - 1])
  }

  ghost predicate EndsCarryNotes(h: seq<Entry>) {
    forall i | 0 <= i < |h| :: CarriesNote(h, i)
  }

  /** An end record tells the last offset noted since its file was begun. */
  ghost predicate CarriesNote(h: seq<Entry>, i: nat)
    requires i < |h|
  {
    match h[i]
    case Note(_) => true
    case Out(r) => r.End? ==> r.binaryOffset == NoteOf(h[..i])
  }

  /** The writer holds the note its history has open. */
  ghost predicate Tracks(w: Writer, h: seq<Entry>) {
    EndsCarryNotes(h) && NoteOf(h) == w.binaryOffset && (w.currentFile == None ==> w.binaryOffset == None)
  }

  lemma NotesSnoc(h: seq<Entry>, e: Entry)
    requires EndsCarryNotes(h)
    requires e.Out? && e.record.End? ==> e.record.binaryOffset == NoteOf(h)
    ensures EndsCarryNotes(h + [e])
    ensures NoteOf(h + [e])
         == match e
            case Note(offset) => Some(offset)
            case Out(r) => if r.Begin? || r.End? then None else NoteOf(h)
  {
    var more := h + [e];
    assert more[..|h|] == h;
    forall i | 0 <= i < |more|
      ensures CarriesNote(more, i)
    {
      if i < |h| {
        assert CarriesNote(h, i) && more[..i] == h[..i];
      }
    }
  }

  lemma FinishFileTracks(w: Writer, h: seq<Entry>) returns (more: seq<Record>)
    requires Tracks(w, h)
    ensures FinishFile(w).printed == w.printed + more && Tracks(FinishFile(w), h + Outs(more))
  {
    hide EndsCarryNotes, NoteOf;
    if w.currentFile == None {
      more := [];
      assert h + Outs(more) == h;
    } else {
      var record := End(w.currentFile.value, w.binaryOffset, EndStats(w.fileStats));
      more := [record];
      NotesSnoc(h, Out(record));
      assert Outs(more) == [Out(record)];
    }
  }

  lemma EnsureBeginTracks(w: Writer, size: Size, file: bytes, h: seq<Entry>) returns (more: seq<Record>)
    requires Tracks(w, h)
    ensures EnsureBegin(w, size, file).printed == w.printed + more
    ensures Tracks(EnsureBegin(w, size, file), h + Outs(more)) && EnsureBegin(w, size, file).currentFile == Some(file)
  {
    hide EndsCarryNotes, NoteOf, FinishFile;
    if w.currentFile == Some(file) {
      more := [];
      assert h + Outs(more) == h;
    } else {
      var done := FinishFileTracks(w, h);
      FinishFileCloses(w);
      NotesSnoc(h + Outs(done), Out(Begin(file)));
      more := done + [Begin(file)];
      assert h + Outs(more) == h + Outs(done) + [Out(Begin(file))];
    }
  }

  lemma FinishFileCloses(w: Writer)
    requires w.currentFile == None ==> w.binaryOffset == None
    ensures FinishFile(w).currentFile == None && FinishFile(w).binaryOffset == None
  {
  }

  lemma RowTracks(b: Writer, h: seq<Entry>, r: Record)
    requires Tracks(b, h) && (r.MatchRow? || r.ContextRow? || r.Summary?)
    ensures EndsCarryNotes(h + [Out(r)]) && NoteOf(h + [Out(r)]) == b.binaryOffset
  {
    hide EndsCarryNotes, NoteOf;
    NotesSnoc(h, Out(r));
  }

  lemma StepTracks(w: Writer, size: Size, call: Call, h: seq<Entry>)
    requires Tracks(w, h)
    ensures Tracks(Step(w, size, call), h + CallEntries(w, size, call))
  {
    hide EndsCarryNotes, NoteOf, FinishFile, EnsureBegin;
    StepPrints(w, size, call);
    var more := Step(w, size, call).printed[|w.printed|..];
    match call
    case NoteBytesSearched(_) =>
      assert h + CallEntries(w, size, call) == h;
    case SetFileBytesSearched(_) =>
      assert h + CallEntries(w, size, call) == h;
    case WriteBinaryNote(file, offset) =>
      var begun := EnsureBeginTracks(w, size, file, h);
      assert more == begun;
      NotesSnoc(h + Outs(more), Note(offset));
      assert h + CallEntries(w, size, call) == h + Outs(more) + [Note(offset)];
    case WriteContextLine(file, line, data) =>
      var begun := EnsureBeginTracks(w, size, file, h);
      RowTracks(EnsureBegin(w, size, file), h + Outs(begun), ContextRow(file, line, data));
      assert more == begun + [ContextRow(file, line, data)];
      assert h + CallEntries(w, size, call) == h + Outs(begun) + [Out(ContextRow(file, line, data))];
    case WriteMatch(file, line, submatches, hidden, data) =>
      if hidden {
        assert h + CallEntries(w, size, call) == h;
      } else {
        var begun := EnsureBeginTracks(w, size, file, h);
        RowTracks(EnsureBegin(w, size, file), h + Outs(begun), MatchRow(file, line, submatches, data));
        assert more == begun + [MatchRow(file, line, submatches, data)];
        assert h + CallEntries(w, size, call) == h + Outs(begun) + [Out(MatchRow(file, line, submatches, data))];
      }
    case Flush =>
      var done := FinishFileTracks(w, h);
      assert more == done;
      assert h + CallEntries(w, size, call) == h + Outs(done);
  }

  lemma {:induction false} RunTracks(size: Size, calls: seq<Call>)
    ensures Tracks(Run(size, calls), History(size, calls))
  {
    hide Step, CallEntries, EndsCarryNotes;
    if calls == [] {
      NoHistory();
    } else {
      RunTracks(size, calls[..|calls| - 1]);
      StepTracks(Run(size, calls[..|calls| - 1]), size, calls[|calls| - 1], History(size, calls[..|calls| - 1]));
    }
  }

  lemma NoHistory()
    ensures EndsCarryNotes([])
  {
  }

  /** Over any invocation each end record tells the last offset noted since its
      file was begun, and none if none was. */
  lemma InvocationNotes(size: Size, calls: seq<Call>)
    ensures EndsCarryNotes(WholeHistory(size, calls))
  {
    hide EndsCarryNotes, NoteOf, FinishFile, Run, History;
    var w, h := Run(size, calls), History(size, calls);
    RunTracks(size, calls);
    var more := FinishFileTracks(w, h);
    var summary := Finished(w).printed[|Finished(w).printed| - 1];
    RowTracks(FinishFile(w), h + Outs(more), summary);
    assert Finished(w).printed[|w.printed|..] == more + [summary];
    assert WholeHistory(size, calls) == h + Outs(more) + [Out(summary)];
  }

  /** The records of a history, in order. */
  function Written(h: seq<Entry>): seq<Record> {
    if h == [] then []
    else Written(h[..|h| - 1]) + match h[|h| - 1] case Note(_) => [] case Out(r) => [r]
  }

  lemma {:induction false} WrittenAppend(h: seq<Entry>, records: seq<Record>)
    ensures Written(h + Outs(records)) == Written(h) + records
  {
    if records == [] {
      assert h + Outs(records) == h;
    } else {
      var init, r := records[..|records| - 1], records[|records| - 1];
      WrittenAppend(h, init);
      assert (h + Outs(records))[..|h| + |init|] == h + Outs(init);
      Regroup(Written(h), init, [r]);
      assert records == init + [r];
    }
  }

  lemma {:induction false} HistoryPrints(size: Size, calls: seq<Call>)
    ensures Written(History(size, calls)) == Run(size, calls).printed
  {
    hide Step;
    if calls != [] {
      var init, call := calls[..|calls| - 1], calls[|calls| - 1];
      HistoryPrints(size, init);
      CallPrints(History(size, init), Run(size, init), size, call);
    }
  }

  lemma CallPrints(h: seq<Entry>, w: Writer, size: Size, call: Call)
    requires Written(h) == w.printed
    ensures Written(h + CallEntries(w, size, call)) == Step(w, size, call).printed
  {
    hide Step;
    StepPrints(w, size, call);
    var more := Step(w, size, call).printed[|w.printed|..];
    WrittenAppend(h, more);
    assert w.printed + more == Step(w, size, call).printed;
    if call.WriteBinaryNote? {
      var all := h + Outs(more) + [Note(call.offset)];
      assert h + CallEntries(w, size, call) == all;
      assert all[..|all| - 1] == h + Outs(more);
    } else {
      assert h + CallEntries(w, size, call) == h + Outs(more);
    }
  }

  /** The records of the whole history are the log that is printed. */
  lemma WholeHistoryPrints(size: Size, calls: seq<Call>)
    ensures Written(WholeHistory(size, calls)) == Finished(Run(size, calls)).printed
  {
    hide Run, History;
    var w := Run(size, calls);
    HistoryPrints(size, calls);
    var more := Finished(w).printed[|w.printed|..];
    WrittenAppend(History(size, calls), more);
    assert w.printed + more == Finished(w).printed;
  }

  // ---------------------------------------------------------------------------
  // The log from the calls alone

  /** The row a call asks for: one for each context line and each match not hidden. */
  function RowAsked(call: Call): seq<Record> {
    match call
    case WriteContextLine(file, line, data) => [ContextRow(file, line, data)]
    case WriteMatch(file, line, submatches, hidden, data) =>
      if hidden then [] else [MatchRow(file, line, submatches, data)]
    case _ => []
  }

  function RowsAsked(calls: seq<Call>): seq<Record> {
    if calls == [] then [] else RowsAsked(calls[..|calls| - 1]) + RowAsked(calls[|calls| - 1])
  }

  /** The file a call writes to: that of its row, or of its note. */
  function FileAsked(call: Call): Option<bytes> {
    if call.WriteBinaryNote? then Some(call.file)
    else if RowAsked(call) != [] then Some(RowAsked(call)[0].path)
    else None
  }

  /** The file last written to, unless it was flushed since. */
  function OpenFile(calls: seq<Call>): Option<bytes> {
    if calls == [] || calls[|calls| - 1].Flush? then None
    else if FileAsked(calls[|calls| - 1]).Some? then FileAsked(calls[|calls| - 1])
    else OpenFile(calls[..|calls| - 1])
  }

  /** The last call writes to a file that is not open. */
  predicate Opens(calls: seq<Call>)
    requires calls != []
  {
    var file := FileAsked(calls[|calls| - 1]);
    file.Some? && file != OpenFile(calls[..|calls| - 1])
  }

  /** The size last announced. */
  function Announced(calls: seq<Call>): nat {
    if calls == [] then 0
    else
      match calls[|calls| - 1]
      case NoteBytesSearched(n) => n
      case SetFileBytesSearched(n) => n
      case _ => Announced(calls[..|calls| - 1])
  }

  /** The rows asked for, with a begin record wherever a file is opened. */
  function BegunRows(calls: seq<Call>): seq<Record> {
    if calls == [] then []
    else
      var call := calls[|calls| - 1];
      BegunRows(calls[..|calls| - 1])
      + (if Opens(calls) then [Begin(FileAsked(call).value)] else [])
      + RowAsked(call)
  }

  /** The size announced when each file was opened. */
  function SizesAnnounced(calls: seq<Call>): seq<nat> {
    if calls == [] then []
    else
      var init := calls[..|calls| - 1];
      SizesAnnounced(init) + if Opens(calls) then [Announced(init)] else []
  }

  /** A log without its end records and summary. */
  function Unended(records: seq<Record>): seq<Record> {
    if records == [] then []
    else
      var r := records[|records| - 1];
      Unended(records[..|records| - 1]) + if r.End? || r.Summary? then [] else [r]
  }

  /** The match and context rows of a log. */
  function RowsIn(records: seq<Record>): seq<Record> {
    if records == [] then []
    else
      var r := records[|records| - 1];
      RowsIn(records[..|records| - 1]) + if r.MatchRow? || r.ContextRow? then [r] else []
  }

  /** What the end records of a log say was searched. */
  function EndSizes(records: seq<Record>): seq<nat> {
    if records == [] then []
    else
      var r := records[|records| - 1];
      EndSizes(records[..|records| - 1]) + if r.End? then [r.stats.bytesSearched] else []
  }

  lemma LogSnoc(records: seq<Record>, r: Record)
    ensures Unended(records + [r]) == Unended(records) + if r.End? || r.Summary? then [] else [r]
    ensures EndSizes(records + [r]) == EndSizes(records) + if r.End? then [r.stats.bytesSearched] else []
    ensures RowsIn(records + [r]) == RowsIn(records) + if r.MatchRow? || r.ContextRow? then [r] else []
  {
    assert (records + [r])[..|records|] == records;
  }

  function OpenSize(w: Writer): seq<nat> {
    if w.currentFile == None then [] else [w.fileStats.bytesSearched]
  }

  /** The writer stands where the calls have led. */
  ghost predicate Follows(w: Writer, calls: seq<Call>) {
    && w.currentFile == OpenFile(calls) && w.pendingBytes == Announced(calls)
    && Unended(w.printed) == BegunRows(calls) && EndSizes(w.printed) + OpenSize(w) == SizesAnnounced(calls)
  }

  lemma FinishFileFollows(w: Writer)
    ensures var c := FinishFile(w);
            && c.currentFile == None && c.pendingBytes == w.pendingBytes
            && Unended(c.printed) == Unended(w.printed)
            && EndSizes(c.printed) == EndSizes(w.printed) + OpenSize(w)
  {
    hide Unended, EndSizes, RowsIn;
    if w.currentFile.Some? {
      LogSnoc(w.printed, End(w.currentFile.value, w.binaryOffset, EndStats(w.fileStats)));
    }
  }

  lemma EnsureBeginFollows(w: Writer, size: Size, file: bytes)
    ensures var b, opens := EnsureBegin(w, size, file), w.currentFile != Some(file);
            && b.currentFile == Some(file) && b.pendingBytes == w.pendingBytes
            && Unended(b.printed) == Unended(w.printed) + (if opens then [Begin(file)] else [])
            && EndSizes(b.printed) + OpenSize(b)
               == EndSizes(w.printed) + OpenSize(w) + if opens then [w.pendingBytes] else []
  {
    hide Unended, EndSizes, RowsIn, FinishFile;
    if w.currentFile != Some(file) {
      FinishFileFollows(w);
      LogSnoc(FinishFile(w).printed, Begin(file));
    }
  }

  /** A call that writes to a file opens it and adds its row, if it asks for one. */
  lemma StepWrites(w: Writer, size: Size, call: Call)
    requires FileAsked(call).Some?
    ensures var file, s := FileAsked(call).value, Step(w, size, call);
            var opens := w.currentFile != Some(file);
            && s.currentFile == Some(file) && s.pendingBytes == w.pendingBytes
            && Unended(s.printed) == Unended(w.printed) + (if opens then [Begin(file)] else []) + RowAsked(call)
            && EndSizes(s.printed) + OpenSize(s)
               == EndSizes(w.printed) + OpenSize(w) + if opens then [w.pendingBytes] else []
  {
    hide Unended, EndSizes, RowsIn, EnsureBegin;
    var b := EnsureBegin(w, size, FileAsked(call).value);
    EnsureBeginFollows(w, size, FileAsked(call).value);
    if RowAsked(call) != [] {
      LogSnoc(b.printed, RowAsked(call)[0]);
    }
  }

  lemma {:induction false} RunFollows(size: Size, calls: seq<Call>)
    ensures Follows(Run(size, calls), calls)
  {
    hide Unended, EndSizes, Step;
    if calls == [] {
      NothingLogged();
    } else {
      var init, call := calls[..|calls| - 1], calls[|calls| - 1];
      RunFollows(size, init);
      if FileAsked(call).Some? {
        StepWrites(Run(size, init), size, call);
      } else {
        StepRests(Run(size, init), size, call);
      }
    }
  }

  lemma NothingLogged()
    ensures Unended([]) == [] && EndSizes([]) == [] && RowsIn([]) == []
  {
  }

  lemma StepRests(w: Writer, size: Size, call: Call)
    requires FileAsked(call) == None
    ensures var s := Step(w, size, call);
            && s.currentFile == (if call.Flush? then None else w.currentFile)
            && s.pendingBytes == (match call
                                  case NoteBytesSearched(n) => n
                                  case SetFileBytesSearched(n) => n
                                  case _ => w.pendingBytes)
            && Unended(s.printed) == Unended(w.printed)
            && EndSizes(s.printed) + OpenSize(s) == EndSizes(w.printed) + OpenSize(w)
  {
    hide Unended, EndSizes, RowsIn, FinishFile;
    if call.Flush? {
      FinishFileFollows(w);
    }
  }

  lemma {:induction false} RowsOfUnended(records: seq<Record>)
    ensures RowsIn(Unended(records)) == RowsIn(records)
  {
    hide RowsIn, Unended;
    if records == [] {
      NothingLogged();
    } else {
      var init, r := records[..|records| - 1], records[|records| - 1];
      RowsOfUnended(init);
      assert records == init + [r];
      LogSnoc(init, r);
      OneUnended(Unended(init), r);
    }
  }

  lemma OneUnended(records: seq<Record>, r: Record)
    ensures RowsIn(records + if r.End? || r.Summary? then [] else [r])
         == RowsIn(records) + if r.MatchRow? || r.ContextRow? then [r] else []
  {
    hide RowsIn;
    LogSnoc(records, r);
    assert records + [] == records && RowsIn(records) + [] == RowsIn(records);
  }

  lemma {:induction false} RowsOfBegun(calls: seq<Call>)
    ensures RowsIn(BegunRows(calls)) == RowsAsked(calls)
  {
    hide RowsIn, OpenFile;
    if calls == [] {
      NothingLogged();
    } else {
      var init, call := calls[..|calls| - 1], calls[|calls| - 1];
      var begin := if Opens(calls) then [Begin(FileAsked(call).value)] else [];
      RowsOfBegun(init);
      RowsAdded(BegunRows(init), begin);
      RowsAdded(BegunRows(init) + begin, RowAsked(call));
    }
  }

  /** A begin record is no row, and a row asked for is one. */
  lemma RowsAdded(records: seq<Record>, more: seq<Record>)
    requires |more| <= 1 && (more != [] ==> more[0].Begin? || more[0].MatchRow? || more[0].ContextRow?)
    ensures RowsIn(records + more) == RowsIn(records) + if more != [] && !more[0].Begin? then more else []
  {
    hide RowsIn;
    if more == [] {
      assert records + more == records;
    } else {
      assert more == [more[0]];
      LogSnoc(records, more[0]);
    }
  }

  /** The printed log, but for its end records and summary, is the rows asked for, in
      order and as asked, with a begin record wherever a file is opened. Each end record
      tells the size last announced when its file was opened. */
  lemma LogFollowsCalls(size: Size, calls: seq<Call>)
    ensures Unended(Finished(Run(size, calls)).printed) == BegunRows(calls)
    ensures EndSizes(Finished(Run(size, calls)).printed) == SizesAnnounced(calls)
  {
    hide Unended, EndSizes, RowsIn, Run, FinishFile;
    var w := Run(size, calls);
    var c := FinishFile(w);
    RunFollows(size, calls);
    FinishFileFollows(w);
    LogSnoc(c.printed, Finished(w).printed[|c.printed|]);
  }

  /** The printed rows are exactly those asked for. */
  lemma RowsFollowCalls(size: Size, calls: seq<Call>)
    ensures RowsIn(Finished(Run(size, calls)).printed) == RowsAsked(calls)
  {
    hide Unended, EndSizes, RowsIn, Run, FinishFile, Finished;
    LogFollowsCalls(size, calls);
    RowsOfUnended(Finished(Run(size, calls)).printed);
    RowsOfBegun(calls);
  }

  /** Matches asked to be shown. */
  function MatchesAsked(calls: seq<Call>): nat {
    if calls == [] then 0
    else
      var c := calls[|calls| - 1];
      MatchesAsked(calls[..|calls| - 1]) + if c.WriteMatch? && !c.hidden then c.submatches else 0
  }

  lemma SubmatchesSnoc(records: seq<Record>, r: Record)
    ensures TotalSubmatches(records + [r]) == TotalSubmatches(records) + if r.MatchRow? then r.submatches else 0
  {
    assert (records + [r])[..|records|] == records;
  }

  lemma {:induction false} SubmatchesOfRows(records: seq<Record>)
    ensures TotalSubmatches(RowsIn(records)) == TotalSubmatches(records)
  {
    hide RowsIn, TotalSubmatches;
    if records == [] {
      NothingLogged();
    } else {
      var init, r := records[..|records| - 1], records[|records| - 1];
      SubmatchesOfRows(init);
      assert records == init + [r];
      LogSnoc(init, r);
      SubmatchesSnoc(init, r);
      SubmatchesSnoc(RowsIn(init), r);
      assert RowsIn(init) + [] == RowsIn(init);
    }
  }

  lemma {:induction false} SubmatchesAsked(calls: seq<Call>)
    ensures TotalSubmatches(RowsAsked(calls)) == MatchesAsked(calls)
  {
    if calls != [] {
      var init, call := calls[..|calls| - 1], calls[|calls| - 1];
      SubmatchesAsked(init);
      var rows := RowsAsked(init) + RowAsked(call);
      assert RowAsked(call) == [] ==> rows == RowsAsked(init);
      assert RowAsked(call) != [] ==> rows[..|rows| - 1] == RowsAsked(init) && rows[|rows| - 1] == RowAsked(call)[0];
    }
  }

  /** The summary counts the matches of all visible rows. */
  lemma SummaryCountsCalls(size: Size, calls: seq<Call>) returns (rows: seq<Record>, stats: Stats)
    ensures Finished(Run(size, calls)).printed == rows + [Summary(stats)]
    ensures stats.matches == MatchesAsked(calls)
  {
    hide Run, Finished, TotalSubmatches, RowsIn, Read;
    rows, stats := InvocationLog(size, calls);
    RowsFollowCalls(size, calls);
    LogSnoc(rows, Summary(stats));
    assert RowsIn(rows) == RowsAsked(calls);
    SubmatchesOfRows(rows);
    SubmatchesAsked(calls);
  }
}
