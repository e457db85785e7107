/** The sidecar file of listable paths: two headers, length-prefixed records, and
    a reader that accepts exactly what the writer can write. */
module PathIndex {
  import opened Bytes
  import Utf8

  datatype Result<+T, +E> = Ok(value: T) | Err(error: E)

  const MAGIC: bytes := [84, 71, 82, 80, 88, 80, 48, 49]
  const VISIBILITY_MAGIC: bytes := [84, 71, 82, 80, 88, 80, 48, 50]
  const HEADER_LEN: nat := 16
  const PATH_LEN_SIZE: nat := 4
  const MAX_U32: nat := 0xFFFF_FFFF
  const MAX_U64: nat := 0xFFFF_FFFF_FFFF_FFFF

  // ---------------------------------------------------------------------------
  // Little-endian integers

  /** The low `k` bytes of `n`, least significant first. */
  function Le(n: nat, k: nat): (r: bytes)
    ensures |r| == k
  {
    if k == 0 then []
    else
      var low: int := n % 256;
      [low] + Le(n / 256, k - 1)
  }

  function FromLe(b: bytes): nat {
    if b == [] then 0 else b[0] + 256 * FromLe(b[1..])
  }

  function Pow256(k: nat): nat {
    if k == 0 then 1 else 256 * Pow256(k - 1)
  }

  lemma {:induction false} LeFromLe(b: bytes)
    ensures FromLe(b) < Pow256(|b|) && Le(FromLe(b), |b|) == b
  {
    if b != [] {
      LeFromLe(b[1..]);
      var rest := FromLe(b[1..]);
      assert FromLe(b) % 256 == b[0] && FromLe(b) / 256 == rest;
    }
  }

  lemma {:induction false} FromLeLe(n: nat, k: nat)
    requires n < Pow256(k)
    ensures FromLe(Le(n, k)) == n
  {
    if k > 0 {
      FromLeLe(n / 256, k - 1);
      assert Le(n, k)[1..] == Le(n / 256, k - 1);
    }
  }

  lemma IntegerWidths()
    ensures Pow256(4) == MAX_U32 + 1 && Pow256(8) == MAX_U64 + 1
  {
    assert Pow256(1) == 256 && Pow256(2) == 65536 && Pow256(3) == 16777216 && Pow256(4) == 4294967296;
    assert Pow256(5) == 256 * Pow256(4) && Pow256(6) == 256 * Pow256(5);
    assert Pow256(7) == 256 * Pow256(6) && Pow256(8) == 256 * Pow256(7);
  }

  // ---------------------------------------------------------------------------
  // Paths

  /** `path.split('/')`. */
  function Parts(path: bytes): (r: seq<bytes>)
    ensures |r| > 0
  {
    if path == [] then [[]]
    else
      var rest := Parts(path[1..]);
      if path[0] == 47 then [[]] + rest else [[path[0]] + rest[0]] + rest[1..]
  }

  /** A normalized root-relative path. On Windows a colon is refused as well; with
      these refused, every component of the path is an ordinary name. */
  predicate ValidIndexPath(path: bytes, windows: bool) {
    && 92 !in path && 0 !in path
    && (forall part | part in Parts(path) :: part != [] && part != [46] && part != [46, 46])
    && (windows ==> 58 !in path)
  }

  /** `path[i..j]` lies between two slashes or ends of the path. */
  ghost predicate IsComponent(path: bytes, i: nat, j: nat) {
    && i <= j <= |path| && (i == 0 || path[i - 1] == 47) && (j == |path| || path[j] == 47)
    && 47 !in path[i..j]
  }

  /** Components move along with the path, but for the one that grows. */
  lemma ComponentOfTail(path: bytes, i: nat, j: nat)
    requires path != [] && 0 < i <= j
    ensures IsComponent(path, i, j) <==> IsComponent(path[1..], i - 1, j - 1) && (i == 1 ==> path[0] == 47)
    ensures j <= |path| ==> path[i..j] == path[1..][i - 1..j - 1]
  {
    assert j <= |path| ==> path[i..j] == path[1..][i - 1..j - 1];
  }

  /** Every component is among the parts, the first one in front. */
  lemma {:induction false} ComponentIsPart(path: bytes, i: nat, j: nat)
    requires IsComponent(path, i, j)
    ensures if i == 0 then Parts(path)[0] == path[i..j] else path[i..j] in Parts(path)[1..]
  {
    hide IsComponent;
    if path == [] {
      ComponentEnds(path, i, j);
    } else if i > 0 {
      ComponentEnds(path, i, j);
      ComponentOfTail(path, i, j);
      ComponentIsPart(path[1..], i - 1, j - 1);
    } else if path[0] == 47 {
      ComponentEnds(path, i, j);
    } else {
      ComponentEnds(path, i, j);
      FirstComponent(path, j);
      ComponentIsPart(path[1..], 0, j - 1);
    }
  }

  lemma ComponentEnds(path: bytes, i: nat, j: nat)
    requires IsComponent(path, i, j)
    ensures i <= j <= |path|
    ensures i == 0 && j < |path| ==> path[j] == 47
    ensures i == 0 < j ==> path[0] != 47
  {
    assert i == 0 < j ==> path[i..j][0] == path[0];
  }

  /** The first component without its first byte is the first one of the tail. */
  lemma FirstComponent(path: bytes, j: nat)
    requires path != [] && path[0] != 47
    ensures IsComponent(path, 0, j) <==> 0 < j && IsComponent(path[1..], 0, j - 1)
    ensures 0 < j <= |path| ==> path[0..j] == [path[0]] + path[1..][0..j - 1]
  {
    assert 0 < j <= |path| ==> path[0..j] == [path[0]] + path[1..][0..j - 1];
  }

  /** Every part is a component. */
  lemma {:induction false} PartIsComponent(path: bytes, k: nat) returns (i: nat, j: nat)
    requires k < |Parts(path)|
    ensures IsComponent(path, i, j) && path[i..j] == Parts(path)[k] && (i == 0 <==> k == 0)
  {
    hide IsComponent;
    if path == [] {
      i, j := 0, 0;
      EmptyComponent(path);
    } else if path[0] == 47 && k == 0 {
      i, j := 0, 0;
      EmptyComponent(path);
    } else {
      i, j := PartIsComponent(path[1..], if path[0] == 47 then k - 1 else k);
      ComponentEnds(path[1..], i, j);
      if path[0] != 47 && k == 0 {
        j := j + 1;
        FirstComponent(path, j);
      } else {
        i, j := i + 1, j + 1;
        ComponentOfTail(path, i, j);
      }
    }
  }

  lemma EmptyComponent(path: bytes)
    requires path == [] || path[0] == 47
    ensures IsComponent(path, 0, 0)
  {
  }

  /** A path is refused exactly for a backslash, a NUL, a colon on Windows, or a
      component that is empty, `.` or `..`. */
  lemma ValidIndexPathExactly(path: bytes, windows: bool)
    ensures ValidIndexPath(path, windows)
       <==> && 92 !in path && 0 !in path && (windows ==> 58 !in path)
            && forall i: nat, j: nat | IsComponent(path, i, j) ::
                 path[i..j] != [] && path[i..j] != [46] && path[i..j] != [46, 46]
  {
    hide IsComponent, Parts;
    forall i: nat, j: nat | IsComponent(path, i, j)
      ensures i <= j <= |path| && path[i..j] in Parts(path)
    {
      ComponentEnds(path, i, j);
      ComponentIsPart(path, i, j);
    }
    forall part | part in Parts(path)
      ensures exists i: nat, j: nat :: IsComponent(path, i, j) && i <= j <= |path| && path[i..j] == part
    {
      var k :| 0 <= k < |Parts(path)| && Parts(path)[k] == part;
      var i, j := PartIsComponent(path, k);
      ComponentEnds(path, i, j);
    }
  }

  // ---------------------------------------------------------------------------
  // The format

  /** The paths and, in a current file, the visibility record as it is stored. */
  datatype FilenameIndex = FilenameIndex(paths: seq<bytes>, visibility: Option<bytes>)

  /** What the reader needs besides the bytes: the platform, and which visibility
      records parse. */
  datatype Env = Env(windows: bool, parses: bytes -> bool)

  datatype ReadError =
    | HeaderTruncated
    | HeaderInvalid
    | VisibilityLengthTruncated
    | VisibilityOutOfBounds
    | VisibilityMalformed
    | TooManyPaths
    | PathLengthTruncated(index: nat)
    | PathOutOfBounds(index: nat)
    | PathNotUtf8(index: nat)
    | PathInvalid(index: nat)
    | TrailingBytes(count: nat)

  function PathRecord(path: bytes): bytes {
    Le(|path|, PATH_LEN_SIZE) + path
  }

  function PathRecords(paths: seq<bytes>): bytes {
    if paths == [] then [] else PathRecord(paths[0]) + PathRecords(paths[1..])
  }

  function Header(ix: FilenameIndex): bytes {
    (if ix.visibility.Some? then VISIBILITY_MAGIC else MAGIC) + Le(|ix.paths|, 8)
  }

  function Visibility(ix: FilenameIndex): bytes {
    match ix.visibility case None => [] case Some(blob) => Le(|blob|, 8) + blob
  }

  /** The file of an index. */
  function Serialized(ix: FilenameIndex): bytes {
    Header(ix) + (Visibility(ix) + PathRecords(ix.paths))
  }

  /** Lengths the format can hold: 64-bit counts and 32-bit path lengths. */
  predicate Fits(ix: FilenameIndex) {
    && |ix.paths| <= MAX_U64
    && (ix.visibility.Some? ==> |ix.visibility.value| <= MAX_U64)
    && forall k | 0 <= k < |ix.paths| :: |ix.paths[k]| <= MAX_U32
  }

  predicate AcceptablePath(env: Env, path: bytes) {
    Utf8.Valid(path) && ValidIndexPath(path, env.windows)
  }

  /** Every path and the visibility record pass the reader's checks. */
  predicate Acceptable(env: Env, ix: FilenameIndex) {
    && (ix.visibility.Some? ==> env.parses(ix.visibility.value))
    && forall k | 0 <= k < |ix.paths| :: AcceptablePath(env, ix.paths[k])
  }

  // ---------------------------------------------------------------------------
  // Writing

  /** A path of 2^32 bytes or more cannot be written. */
  method WritePaths(ix: FilenameIndex) returns (r: Result<bytes, nat>)
    ensures match r
            case Ok(data) => data == Serialized(ix) && forall k | 0 <= k < |ix.paths| :: |ix.paths[k]| <= MAX_U32
            case Err(k) => k < |ix.paths| && |ix.paths[k]| > MAX_U32
  {
    var out := (if ix.visibility.Some? then VISIBILITY_MAGIC else MAGIC) + Le(|ix.paths|, 8);
    if ix.visibility.Some? {
      out := out + Le(|ix.visibility.value|, 8) + ix.visibility.value;
    }
    assert out == Header(ix) + Visibility(ix);
    assert ix.paths[0..] == ix.paths;
    Regroup(Header(ix), Visibility(ix), PathRecords(ix.paths));
    var k := 0;
    while k < |ix.paths|
      invariant 0 <= k <= |ix.paths|
      invariant Serialized(ix) == out + PathRecords(ix.paths[k..])
      invariant forall j | 0 <= j < k :: |ix.paths[j]| <= MAX_U32
    {
      var path := ix.paths[k];
      if |path| > MAX_U32 {
        return Err(k);
      }
      assert ix.paths[k..][1..] == ix.paths[k + 1..];
      Regroup(out, PathRecord(path), PathRecords(ix.paths[k + 1..]));
      Regroup(out, Le(|path|, PATH_LEN_SIZE), path);
      out := out + Le(|path|, PATH_LEN_SIZE) + path;
      k := k + 1;
    }
    return Ok(out);
  }

  // ---------------------------------------------------------------------------
  // Reading

  /** Path records `index..index + count`, which must fill `rest`. */
  function ParsePaths(env: Env, rest: bytes, count: nat, index: nat): Result<seq<bytes>, ReadError>
    decreases count
  {
    if count == 0 then (if rest == [] then Ok([]) else Err(TrailingBytes(|rest|)))
    else if |rest| < PATH_LEN_SIZE then Err(PathLengthTruncated(index))
    else
      var end := PATH_LEN_SIZE + FromLe(rest[..PATH_LEN_SIZE]);
      if end > |rest| then Err(PathOutOfBounds(index))
      else if !Utf8.Valid(rest[PATH_LEN_SIZE..end]) then Err(PathNotUtf8(index))
      else if !ValidIndexPath(rest[PATH_LEN_SIZE..end], env.windows) then Err(PathInvalid(index))
      else
        match ParsePaths(env, rest[end..], count - 1, index + 1)
        case Err(e) => Err(e)
        case Ok(paths) => Ok([rest[PATH_LEN_SIZE..end]] + paths)
  }

  /** The body after the visibility record. */
  function ParseBody(env: Env, rest: bytes, count: nat, visibility: Option<bytes>): Result<FilenameIndex, ReadError> {
    if count > |rest| / PATH_LEN_SIZE then Err(TooManyPaths)
    else
      match ParsePaths(env, rest, count, 0)
      case Err(e) => Err(e)
      case Ok(paths) => Ok(FilenameIndex(paths, visibility))
  }

  /** What a file says, or what is wrong with it. */
  function Parsed(env: Env, data: bytes): Result<FilenameIndex, ReadError> {
    if |data| < HEADER_LEN then Err(HeaderTruncated)
    else if data[..8] != VISIBILITY_MAGIC && data[..8] != MAGIC then Err(HeaderInvalid)
    else
      var count, rest := FromLe(data[8..HEADER_LEN]), data[HEADER_LEN..];
      if data[..8] != VISIBILITY_MAGIC then ParseBody(env, rest, count, None)
      else if |rest| < 8 then Err(VisibilityLengthTruncated)
      else
        var end := 8 + FromLe(rest[..8]);
        if end > |rest| then Err(VisibilityOutOfBounds)
        else if !env.parses(rest[8..end]) then Err(VisibilityMalformed)
        else ParseBody(env, rest[end..], count, Some(rest[8..end]))
  }

  method ReadFilenameIndex(env: Env, data: bytes) returns (r: Result<FilenameIndex, ReadError>)
    ensures r == Parsed(env, data)
  {
    hide FromLe, Utf8.Valid, ValidIndexPath, ParsePaths;
    if |data| < HEADER_LEN {
      return Err(HeaderTruncated);
    }
    var hasVisibility := data[..8] == VISIBILITY_MAGIC;
    if !hasVisibility && data[..8] != MAGIC {
      return Err(HeaderInvalid);
    }
    var count := FromLe(data[8..HEADER_LEN]);
    var pos := HEADER_LEN;
    var visibility: Option<bytes> := None;
    if hasVisibility {
      ghost var rest := data[pos..];
      if pos + 8 > |data| {
        return Err(VisibilityLengthTruncated);
      }
      TailSlice(data, pos, 0, 8);
      var length := FromLe(data[pos..pos + 8]);
      pos := pos + 8;
      var end := pos + length;
      if end > |data| {
        return Err(VisibilityOutOfBounds);
      }
      TailSlice(data, HEADER_LEN, 8, 8 + length);
      TailSlice(data, HEADER_LEN, 8 + length, |rest|);
      if !env.parses(data[pos..end]) {
        return Err(VisibilityMalformed);
      }
      visibility := Some(data[pos..end]);
      pos := end;
    }
    assert Parsed(env, data) == ParseBody(env, data[pos..], count, visibility);
    if count > (|data| - pos) / PATH_LEN_SIZE {
      return Err(TooManyPaths);
    }
    var paths := ReadPaths(env, data, pos, count);
    match paths {
      case Err(e) => return Err(e);
      case Ok(ps) => return Ok(FilenameIndex(ps, visibility));
    }
  }

  /** The rest of a parse behind the paths already read. */
  function After(done: seq<bytes>, r: Result<seq<bytes>, ReadError>): Result<seq<bytes>, ReadError> {
    match r case Err(e) => Err(e) case Ok(paths) => Ok(done + paths)
  }

  method ReadPaths(env: Env, data: bytes, start: nat, count: nat) returns (r: Result<seq<bytes>, ReadError>)
    requires start <= |data|
    ensures r == ParsePaths(env, data[start..], count, 0)
  {
    hide FromLe, Utf8.Valid, ValidIndexPath;
    var paths: seq<bytes> := [];
    var pos, index := start, 0;
    ghost var whole := ParsePaths(env, data[start..], count, 0);
    AfterNothing(whole);
    while index < count
      invariant 0 <= index <= count && 0 <= pos <= |data|
      invariant whole == After(paths, ParsePaths(env, data[pos..], count - index, index))
    {
      ghost var rest := data[pos..];
      if pos + PATH_LEN_SIZE > |data| {
        return Err(PathLengthTruncated(index));
      }
      TailSlice(data, pos, 0, PATH_LEN_SIZE);
      var len := FromLe(data[pos..pos + PATH_LEN_SIZE]);
      pos := pos + PATH_LEN_SIZE;
      var end := pos + len;
      if end > |data| {
        return Err(PathOutOfBounds(index));
      }
      var value := data[pos..end];
      TailSlice(data, pos - PATH_LEN_SIZE, PATH_LEN_SIZE, PATH_LEN_SIZE + len);
      TailSlice(data, pos - PATH_LEN_SIZE, PATH_LEN_SIZE + len, |rest|);
      if !Utf8.Valid(value) {
        return Err(PathNotUtf8(index));
      }
      if !ValidIndexPath(value, env.windows) {
        return Err(PathInvalid(index));
      }
      AfterOne(paths, value, ParsePaths(env, data[end..], count - index - 1, index + 1));
      paths := paths + [value];
      pos := end;
      index := index + 1;
    }
    if pos != |data| {
      return Err(TrailingBytes(|data| - pos));
    }
    assert data[pos..] == [] && paths + [] == paths;
    return Ok(paths);
  }

  lemma AfterNothing(r: Result<seq<bytes>, ReadError>)
    ensures After([], r) == r
  {
    if r.Ok? {
      assert [] + r.value == r.value;
    }
  }

  lemma AfterOne(done: seq<bytes>, path: bytes, r: Result<seq<bytes>, ReadError>)
    ensures After(done, After([path], r)) == After(done + [path], r)
  {
    if r.Ok? {
      assert done + ([path] + r.value) == done + [path] + r.value;
    }
  }

  // ---------------------------------------------------------------------------
  // Round trips

  lemma SplitAt(a: bytes, b: bytes)
    ensures (a + b)[..|a|] == a && (a + b)[|a|..] == b
  {
  }

  /** The first record of a list, as the reader sees it. */
  lemma FirstRecord(path: bytes, more: bytes)
    requires |path| <= MAX_U32
    ensures var rest, end := PathRecord(path) + more, PATH_LEN_SIZE + |path|;
            && FromLe(rest[..PATH_LEN_SIZE]) == |path|
            && rest[PATH_LEN_SIZE..end] == path
            && rest[end..] == more
  {
    IntegerWidths();
    FromLeLe(|path|, PATH_LEN_SIZE);
    var len := Le(|path|, PATH_LEN_SIZE);
    var rest := PathRecord(path) + more;
    SplitAt(PathRecord(path), more);
    Regroup(len, path, more);
    SplitAt(len, path + more);
    assert rest[PATH_LEN_SIZE..PATH_LEN_SIZE + |path|] == rest[PATH_LEN_SIZE..][..|path|] == path;
  }

  /** Reading written paths gives them back, unless one of them is not acceptable. */
  lemma {:induction false} PathsRoundTrip(env: Env, paths: seq<bytes>, index: nat)
    requires forall k | 0 <= k < |paths| :: |paths[k]| <= MAX_U32
    ensures |PathRecords(paths)| / PATH_LEN_SIZE >= |paths|
    ensures var r := ParsePaths(env, PathRecords(paths), |paths|, index);
            && (r.Ok? <==> forall k | 0 <= k < |paths| :: AcceptablePath(env, paths[k]))
            && (r.Ok? ==> r.value == paths)
  {
    hide Utf8.Valid, ValidIndexPath, FromLe, PathRecord;
    if paths != [] {
      PathsRoundTrip(env, paths[1..], index + 1);
      FirstRecord(paths[0], PathRecords(paths[1..]));
      RecordLength(paths[0]);
      assert paths == [paths[0]] + paths[1..];
      assert forall k | 0 < k < |paths| :: paths[k] == paths[1..][k - 1];
    }
  }

  lemma RecordLength(path: bytes)
    ensures |PathRecord(path)| == PATH_LEN_SIZE + |path|
  {
  }

  /** The header and visibility record, as the reader sees them. */
  lemma FrontRoundTrip(env: Env, ix: FilenameIndex)
    requires Fits(ix)
    ensures Parsed(env, Serialized(ix))
         == if ix.visibility.Some? && !env.parses(ix.visibility.value) then Err(VisibilityMalformed)
            else ParseBody(env, PathRecords(ix.paths), |ix.paths|, ix.visibility)
  {
    hide ParseBody, FromLe, PathRecords;
    IntegerWidths();
    FromLeLe(|ix.paths|, 8);
    var magic := if ix.visibility.Some? then VISIBILITY_MAGIC else MAGIC;
    var count, rest := Le(|ix.paths|, 8), Visibility(ix) + PathRecords(ix.paths);
    var data := Serialized(ix);
    SplitAt(Header(ix), rest);
    Regroup(magic, count, rest);
    SplitAt(magic, count + rest);
    assert data[8..HEADER_LEN] == data[8..][..8] == count;
    assert VISIBILITY_MAGIC[7] != MAGIC[7];
    match ix.visibility
    case None =>
      assert rest == PathRecords(ix.paths);
    case Some(blob) =>
      FromLeLe(|blob|, 8);
      Regroup(Le(|blob|, 8), blob, PathRecords(ix.paths));
      SplitAt(Le(|blob|, 8), blob + PathRecords(ix.paths));
      SplitAt(Visibility(ix), PathRecords(ix.paths));
      assert rest[8..8 + |blob|] == rest[8..][..|blob|] == blob;
  }

  /** Reading what was written gives the same paths and record, and succeeds
      exactly when the paths are valid index paths and the record parses. */
  lemma ReadWritten(env: Env, ix: FilenameIndex)
    requires Fits(ix)
    ensures Parsed(env, Serialized(ix)).Ok? <==> Acceptable(env, ix)
    ensures Acceptable(env, ix) ==> Parsed(env, Serialized(ix)) == Ok(ix)
  {
    hide Serialized, Parsed, ParsePaths, PathRecords;
    FrontRoundTrip(env, ix);
    PathsRoundTrip(env, ix.paths, 0);
  }

  /** A record the reader took is the record of its path. */
  lemma {:induction false} ReadPathsAreWritten(env: Env, rest: bytes, count: nat, index: nat)
    requires ParsePaths(env, rest, count, index).Ok?
    ensures var paths := ParsePaths(env, rest, count, index).value;
            && |paths| == count && PathRecords(paths) == rest
            && forall k | 0 <= k < |paths| :: |paths[k]| <= MAX_U32 && AcceptablePath(env, paths[k])
    decreases count
  {
    hide ParsePaths, FromLe, AcceptablePath, PathRecord, PathRecords;
    if count == 0 {
      NothingParsed(env, rest, index);
    } else {
      FirstParsed(env, rest, count, index);
      var end := PATH_LEN_SIZE + FromLe(rest[..PATH_LEN_SIZE]);
      ReadPathsAreWritten(env, rest[end..], count - 1, index + 1);
      var path, more := rest[PATH_LEN_SIZE..end], ParsePaths(env, rest[end..], count - 1, index + 1).value;
      RecordTaken(rest);
      RecordsCons(path, more);
    }
  }

  lemma NothingParsed(env: Env, rest: bytes, index: nat)
    requires ParsePaths(env, rest, 0, index).Ok?
    ensures ParsePaths(env, rest, 0, index).value == [] && PathRecords([]) == rest
  {
  }

  /** What a successful parse says about the record in front. */
  lemma FirstParsed(env: Env, rest: bytes, count: nat, index: nat)
    requires count > 0 && ParsePaths(env, rest, count, index).Ok?
    ensures PATH_LEN_SIZE <= |rest|
    ensures var end := PATH_LEN_SIZE + FromLe(rest[..PATH_LEN_SIZE]);
            && end <= |rest|
            && AcceptablePath(env, rest[PATH_LEN_SIZE..end])
            && ParsePaths(env, rest[end..], count - 1, index + 1).Ok?
            && ParsePaths(env, rest, count, index).value
               == [rest[PATH_LEN_SIZE..end]] + ParsePaths(env, rest[end..], count - 1, index + 1).value
  {
    hide FromLe, Utf8.Valid, ValidIndexPath;
  }

  /** The bytes in front are the record of the path they hold. */
  lemma RecordTaken(rest: bytes)
    requires PATH_LEN_SIZE <= |rest| && PATH_LEN_SIZE + FromLe(rest[..PATH_LEN_SIZE]) <= |rest|
    ensures var end := PATH_LEN_SIZE + FromLe(rest[..PATH_LEN_SIZE]);
            && |rest[PATH_LEN_SIZE..end]| <= MAX_U32
            && PathRecord(rest[PATH_LEN_SIZE..end]) + rest[end..] == rest
  {
    hide FromLe, Le, Pow256;
    IntegerWidths();
    LeFromLe(rest[..PATH_LEN_SIZE]);
    var end := PATH_LEN_SIZE + FromLe(rest[..PATH_LEN_SIZE]);
    Rejoin(rest, PATH_LEN_SIZE, end, |rest|);
    assert rest[..|rest|] == rest && rest[end..] == rest[end..|rest|];
  }

  lemma RecordsCons(path: bytes, more: seq<bytes>)
    ensures PathRecords([path] + more) == PathRecord(path) + PathRecords(more)
  {
    hide PathRecord;
    assert ([path] + more)[1..] == more;
  }

  /** Any bytes the reader accepts are what writing its result produces. */
  lemma WrittenRead(env: Env, data: bytes)
    requires Parsed(env, data).Ok?
    ensures var ix := Parsed(env, data).value;
            Fits(ix) && Acceptable(env, ix) && Serialized(ix) == data
  {
    hide ParsePaths, FromLe, Le, Pow256, PathRecords, AcceptablePath;
    var ix := Parsed(env, data).value;
    IntegerWidths();
    LeFromLe(data[8..HEADER_LEN]);
    var rest := data[HEADER_LEN..];
    Rejoin(data, 8, HEADER_LEN, |data|);
    assert data[..|data|] == data && rest == data[HEADER_LEN..|data|];
    if data[..8] == VISIBILITY_MAGIC {
      LeFromLe(rest[..8]);
      var end := 8 + FromLe(rest[..8]);
      ReadPathsAreWritten(env, rest[end..], FromLe(data[8..HEADER_LEN]), 0);
      Rejoin(rest, 8, end, |rest|);
      assert rest[..|rest|] == rest && rest[end..] == rest[end..|rest|];
    } else {
      ReadPathsAreWritten(env, rest, FromLe(data[8..HEADER_LEN]), 0);
      assert Visibility(ix) + PathRecords(ix.paths) == rest;
    }
  }

  /** The reader accepts exactly the bytes that writing an acceptable index produces. */
  lemma AcceptedExactly(env: Env, data: bytes)
    ensures Parsed(env, data).Ok?
       <==> exists ix :: Fits(ix) && Acceptable(env, ix) && Serialized(ix) == data
  {
    hide Parsed, Fits, Acceptable, Serialized;
    if Parsed(env, data).Ok? {
      WrittenRead(env, data);
    }
    forall ix | Fits(ix) && Acceptable(env, ix) && Serialized(ix) == data
      ensures Parsed(env, data).Ok?
    {
      ReadWritten(env, ix);
    }
  }

  /** What is wrong with the record a tail starts with. */
  ghost predicate IsFault(env: Env, tail: bytes, e: ReadError) {
    if e.PathLengthTruncated? then |tail| < PATH_LEN_SIZE
    else
      && |tail| >= PATH_LEN_SIZE
      && var end := PATH_LEN_SIZE + FromLe(tail[..PATH_LEN_SIZE]);
         if e.PathOutOfBounds? then end > |tail|
         else
           && end <= |tail|
           && var path := tail[PATH_LEN_SIZE..end];
              if e.PathNotUtf8? then !Utf8.Valid(path)
              else e.PathInvalid? && Utf8.Valid(path) && !ValidIndexPath(path, env.windows)
  }

  /** A refused list is a run of good records, and then the record the error names with
      the fault it names, or bytes past the last record. */
  lemma {:induction false} PathErrorMeaning(env: Env, rest: bytes, count: nat, index: nat)
      returns (done: seq<bytes>, tail: bytes)
    requires ParsePaths(env, rest, count, index).Err?
    ensures rest == PathRecords(done) + tail && |done| <= count
    ensures forall k | 0 <= k < |done| :: |done[k]| <= MAX_U32 && AcceptablePath(env, done[k])
    ensures var e := ParsePaths(env, rest, count, index).error;
            if e.TrailingBytes? then |done| == count && e.count == |tail| > 0
            else
              && (e.PathLengthTruncated? || e.PathOutOfBounds? || e.PathNotUtf8? || e.PathInvalid?)
              && |done| < count && e.index == index + |done| && IsFault(env, tail, e)
    decreases count
  {
    hide FromLe, Utf8.Valid, ValidIndexPath, PathRecords;
    done, tail := [], rest;
    NoRecords(rest);
    if count > 0 && |rest| >= PATH_LEN_SIZE {
      var end := PATH_LEN_SIZE + FromLe(rest[..PATH_LEN_SIZE]);
      if end <= |rest| && AcceptablePath(env, rest[PATH_LEN_SIZE..end]) {
        var path := rest[PATH_LEN_SIZE..end];
        done, tail := PathErrorMeaning(env, rest[end..], count - 1, index + 1);
        RecordTaken(rest);
        RecordsCons(path, done);
        Regroup(PathRecord(path), PathRecords(done), tail);
        done := [path] + done;
      }
    }
  }

  /** The path records start at `from`, behind a good header and visibility record. */
  ghost predicate BodyAt(env: Env, data: bytes, from: nat) {
    && HEADER_LEN <= from <= |data|
    && (data[..8] == MAGIC ==> from == HEADER_LEN)
    && (data[..8] != MAGIC ==>
          && data[..8] == VISIBILITY_MAGIC && |data| >= 24 && from == 24 + FromLe(data[16..24])
          && env.parses(data[24..from]))
  }

  /** Each fault before the path records is reported by its own error, and only then. */
  lemma HeaderErrorMeaning(env: Env, data: bytes)
    ensures var r, marked := Parsed(env, data), |data| >= HEADER_LEN && data[..8] == VISIBILITY_MAGIC;
            && (r == Err(HeaderTruncated) <==> |data| < 16)
            && (r == Err(HeaderInvalid) <==> |data| >= 16 && !marked && data[..8] != MAGIC)
            && (r == Err(VisibilityLengthTruncated) <==> marked && |data| < 24)
            && (r == Err(VisibilityOutOfBounds) <==> marked && |data| >= 24 && 24 + FromLe(data[16..24]) > |data|)
            && (r == Err(VisibilityMalformed) <==>
                  && marked && |data| >= 24 && 24 + FromLe(data[16..24]) <= |data|
                  && !env.parses(data[24..24 + FromLe(data[16..24])]))
            && (r == Err(TooManyPaths) <==>
                  exists from: nat :: BodyAt(env, data, from) && 4 * FromLe(data[8..16]) > |data| - from)
  {
    hide FromLe, ParsePaths;
    if |data| >= HEADER_LEN {
      assert VISIBILITY_MAGIC[7] != MAGIC[7];
      var rest := data[HEADER_LEN..];
      if data[..8] == MAGIC {
        BodyErrors(env, rest, FromLe(data[8..16]), None);
        assert BodyAt(env, data, HEADER_LEN);
      } else if data[..8] == VISIBILITY_MAGIC && |data| >= 24 {
        var end := 24 + FromLe(data[16..24]);
        TailSlice(data, HEADER_LEN, 0, 8);
        if end <= |data| {
          TailSlice(data, HEADER_LEN, 8, end - HEADER_LEN);
          BodyErrors(env, rest[end - HEADER_LEN..], FromLe(data[8..16]), Some(data[24..end]));
          assert env.parses(data[24..end]) ==> BodyAt(env, data, end);
        }
      }
    }
  }

  /** The body has too many records or the faults of its records. */
  lemma BodyErrors(env: Env, rest: bytes, count: nat, visibility: Option<bytes>)
    ensures var r := ParseBody(env, rest, count, visibility);
            && (r == Err(TooManyPaths) <==> 4 * count > |rest|)
            && (r.Err? ==> r.error.TooManyPaths? || r.error.TrailingBytes? || r.error.PathLengthTruncated?
                           || r.error.PathOutOfBounds? || r.error.PathNotUtf8? || r.error.PathInvalid?)
  {
    hide ParsePaths;
    if ParsePaths(env, rest, count, 0).Err? {
      var done, tail := PathErrorMeaning(env, rest, count, 0);
    }
  }

  lemma NoRecords(rest: bytes)
    ensures PathRecords([]) + rest == rest
  {
  }

  /** Integers are stored with their low byte first. */
  lemma LittleEndian(a: byte, b: byte, c: byte, d: byte)
    ensures FromLe([a, b, c, d]) == a + 256 * b + 65536 * c + 16777216 * d
  {
    hide FromLe;
    NoBytes();
    assert [d] == [d] + [] && [c, d] == [c] + [d] && [b, c, d] == [b] + [c, d] && [a, b, c, d] == [a] + [b, c, d];
    LowByte(d, []);
    LowByte(c, [d]);
    LowByte(b, [c, d]);
    LowByte(a, [b, c, d]);
  }

  lemma NoBytes()
    ensures FromLe([]) == 0
  {
  }

  lemma LowByte(low: byte, rest: bytes)
    ensures FromLe([low] + rest) == low + 256 * FromLe(rest)
  {
    assert ([low] + rest)[1..] == rest;
  }

  /** The file of the one path `a/b`, and the same with a visibility record of `{}`. */
  lemma FormatExample()
    ensures Serialized(FilenameIndex([[97, 47, 98]], None))
         == MAGIC + [1, 0, 0, 0, 0, 0, 0, 0] + [3, 0, 0, 0, 97, 47, 98]
    ensures Serialized(FilenameIndex([[97, 47, 98]], Some([123, 125])))
         == VISIBILITY_MAGIC + [1, 0, 0, 0, 0, 0, 0, 0] + [2, 0, 0, 0, 0, 0, 0, 0, 123, 125] + [3, 0, 0, 0, 97, 47, 98]
    ensures MAGIC == [84, 71, 82, 80, 88, 80, 48, 49] && VISIBILITY_MAGIC == [84, 71, 82, 80, 88, 80, 48, 50]
  {
    hide Le, PathRecords;
    var path: bytes := [97, 47, 98];
    EightBytes(1);
    EightBytes(2);
    FourBytes(3);
    OneRecord(path);
    var blob: bytes := [123, 125];
    assert Le(2, 8) + blob == [2, 0, 0, 0, 0, 0, 0, 0, 123, 125];
    Regroup(VISIBILITY_MAGIC + Le(1, 8), Le(2, 8) + blob, PathRecords([path]));
    assert [] + PathRecords([path]) == PathRecords([path]);
  }

  lemma OneRecord(path: bytes)
    ensures PathRecords([path]) == Le(|path|, 4) + path
  {
    hide Le;
    RecordsCons(path, []);
    assert [path] + [] == [path] && PathRecords([]) == [] && PathRecord(path) + [] == PathRecord(path);
  }

  lemma EightBytes(n: byte)
    ensures Le(n, 8) == [n, 0, 0, 0, 0, 0, 0, 0]
  {
    ZeroBytes(7);
    assert Le(n, 8) == [n] + Le(0, 7);
  }

  lemma FourBytes(n: byte)
    ensures Le(n, 4) == [n, 0, 0, 0]
  {
    ZeroBytes(3);
    assert Le(n, 4) == [n] + Le(0, 3);
  }

  lemma {:induction false} ZeroBytes(k: nat)
    ensures Le(0, k) == seq(k, _ => 0)
  {
    if k > 0 {
      ZeroBytes(k - 1);
    }
  }
}
