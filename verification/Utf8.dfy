/** UTF-8 as section 4 of RFC 3629 defines it, and the standard library's
    whole-buffer check with its error report. */
module Utf8 {
  import opened Bytes

  predicate Tail(b: byte) {
    0x80 <= b <= 0xBF
  }

  /** Length of the sequence a lead byte announces, or 0 for no lead byte. */
  function Width(b: byte): nat {
    if b <= 0x7F then 1
    else if 0xC2 <= b <= 0xDF then 2
    else if 0xE0 <= b <= 0xEF then 3
    else if 0xF0 <= b <= 0xF4 then 4
    else 0
  }

  /** Whether `b` may follow the lead byte `a`. */
  predicate SecondOk(a: byte, b: byte) {
    if a == 0xE0 then 0xA0 <= b <= 0xBF
    else if a == 0xED then 0x80 <= b <= 0x9F
    else if a == 0xF0 then 0x90 <= b <= 0xBF
    else if a == 0xF4 then 0x80 <= b <= 0x8F
    else Tail(b)
  }

  /** `s` is the encoding of one character. */
  predicate IsChar(s: bytes) {
    && 1 <= |s| <= 4
    && Width(s[0]) == |s|
    && (|s| >= 2 ==> SecondOk(s[0], s[1]))
    && (|s| >= 3 ==> Tail(s[2]))
    && (|s| >= 4 ==> Tail(s[3]))
  }

  predicate IsScalar(c: int) {
    0 <= c <= 0xD7FF || 0xE000 <= c <= 0x10FFFF
  }

  /** `c` without its low `k` groups of six bits. */
  function High(c: nat, k: nat): nat {
    if k == 0 then c else High(c, k - 1) / 64
  }

  /** The `k`-th continuation byte of `c`, counted from the low end. */
  function TailByte(c: nat, k: nat): byte {
    var sextet: int := High(c, k) % 64;
    0x80 + sextet
  }

  function LeadByte(mark: byte, c: nat, k: nat): byte
    requires High(c, k) + mark < 256
  {
    var top: int := High(c, k);
    mark + top
  }

  /** The bytes of one Unicode scalar value, by the bit layout of RFC 3629. */
  function Encode(c: int): bytes
    requires IsScalar(c)
  {
    HighBounds(c);
    if c < 0x80 then [c]
    else if c < 0x800 then [LeadByte(0xC0, c, 1), TailByte(c, 0)]
    else if c < 0x10000 then [LeadByte(0xE0, c, 2), TailByte(c, 1), TailByte(c, 0)]
    else [LeadByte(0xF0, c, 3), TailByte(c, 2), TailByte(c, 1), TailByte(c, 0)]
  }

  lemma HighBounds(c: nat)
    ensures 64 * High(c, 1) <= c < 64 * High(c, 1) + 64
    ensures 64 * High(c, 2) <= High(c, 1) < 64 * High(c, 2) + 64
    ensures 64 * High(c, 3) <= High(c, 2) < 64 * High(c, 3) + 64
  {
    assert High(c, 1) == High(c, 0) / 64;
    assert High(c, 2) == High(c, 1) / 64;
    assert High(c, 3) == High(c, 2) / 64;
  }

  /** Six payload bits of a continuation byte appended to `acc`. */
  function Shifted(acc: int, tail: int): int {
    acc * 64 + (tail - 0x80)
  }

  function Decode(s: bytes): int
    requires IsChar(s)
  {
    var lead: int := s[0];
    if |s| == 1 then lead
    else if |s| == 2 then Shifted(lead - 0xC0, s[1])
    else if |s| == 3 then Shifted(Shifted(lead - 0xE0, s[1]), s[2])
    else Shifted(Shifted(Shifted(lead - 0xF0, s[1]), s[2]), s[3])
  }

  lemma {:induction false} HighOfShifted(acc: nat, tail: byte, k: nat)
    requires Tail(tail)
    ensures High(Shifted(acc, tail), k + 1) == High(acc, k)
    ensures TailByte(Shifted(acc, tail), 0) == tail
  {
    var c := Shifted(acc, tail);
    assert c == acc * 64 + (tail - 0x80);
    assert High(c, 0) == c && c / 64 == acc;
    if k > 0 {
      HighOfShifted(acc, tail, k - 1);
    }
  }

  /** The byte grammar accepts exactly the encodings of scalar values. */
  lemma EncodeDecode(c: int)
    requires IsScalar(c)
    ensures IsChar(Encode(c)) && Decode(Encode(c)) == c
  {
    HighBounds(c);
  }

  /** The lead byte's ranges keep decoded values scalar and as long as they came. */
  lemma DecodeBounds(s: bytes)
    requires IsChar(s)
    ensures IsScalar(Decode(s))
    ensures match |s|
            case 1 => Decode(s) < 0x80
            case 2 => 0x80 <= Decode(s) < 0x800
            case 3 => 0x800 <= Decode(s) < 0x10000
            case _ => 0x10000 <= Decode(s)
  {
  }

  lemma DecodeEncode(s: bytes)
    requires IsChar(s)
    ensures IsScalar(Decode(s)) && Encode(Decode(s)) == s
  {
    hide High, Shifted, IsScalar;
    DecodeBounds(s);
    var lead: int := s[0];
    if |s| == 2 {
      HighOfShifted(lead - 0xC0, s[1], 0);
      HighZero(lead - 0xC0);
    } else if |s| == 3 {
      ShiftedTwice(lead - 0xE0, s[1], s[2]);
    } else if |s| == 4 {
      ShiftedThrice(lead - 0xF0, s[1], s[2], s[3]);
    }
  }

  lemma HighZero(c: nat)
    ensures High(c, 0) == c
  {
  }

  lemma ShiftedThrice(top: nat, t2: byte, t1: byte, t0: byte)
    requires Tail(t2) && Tail(t1) && Tail(t0)
    ensures var c := Shifted(Shifted(Shifted(top, t2), t1), t0);
            High(c, 3) == top && TailByte(c, 2) == t2 && TailByte(c, 1) == t1 && TailByte(c, 0) == t0
  {
    var b := Shifted(Shifted(top, t2), t1);
    ShiftedTwice(top, t2, t1);
    HighOfShifted(b, t0, 0);
    HighOfShifted(b, t0, 1);
    HighOfShifted(b, t0, 2);
  }

  lemma ShiftedTwice(top: nat, t1: byte, t0: byte)
    requires Tail(t1) && Tail(t0)
    ensures var c := Shifted(Shifted(top, t1), t0);
            High(c, 2) == top && TailByte(c, 1) == t1 && TailByte(c, 0) == t0
  {
    var a := Shifted(top, t1);
    HighOfShifted(top, t1, 0);
    HighOfShifted(a, t0, 0);
    HighOfShifted(a, t0, 1);
  }

  /** Length of the character at the front of `b`, or 0 if there is none. */
  function CharLen(b: bytes): (n: nat)
    ensures n <= 4 && n <= |b|
  {
    if b != [] && 0 < Width(b[0]) <= |b| && IsChar(b[..Width(b[0])]) then Width(b[0]) else 0
  }

  /** The character at the front is the only one there, and what follows it does
      not change it. */
  lemma CharLenOf(s: bytes, rest: bytes)
    requires IsChar(s)
    ensures CharLen(s + rest) == |s| && (s + rest)[|s|..] == rest
  {
    assert (s + rest)[..|s|] == s;
  }

  /** `b` is a sequence of characters. */
  predicate Valid(b: bytes) {
    b == [] || (CharLen(b) > 0 && Valid(b[CharLen(b)..]))
  }

  /** Length of the longest character of a valid `b`. */
  function Widest(b: bytes): nat
    requires Valid(b)
  {
    if b == [] then 0 else Max(CharLen(b), Widest(b[CharLen(b)..]))
  }

  lemma {:induction false} ValidAppend(a: bytes, b: bytes)
    requires Valid(a)
    ensures Valid(a + b) <==> Valid(b)
    ensures Valid(b) ==> Widest(a + b) == Max(Widest(a), Widest(b))
  {
    if a == [] {
      assert a + b == b;
    } else {
      var n := CharLen(a);
      ValidAppend(a[n..], b);
      assert a + b == a[..n] + (a[n..] + b);
      CharLenOf(a[..n], a[n..] + b);
    }
  }

  /** In valid text the byte after an ASCII byte starts a character. */
  lemma {:induction false} AsciiEndsChar(b: bytes, i: nat)
    requires Valid(b) && i + 1 < |b| && b[i] < 0x80
    ensures !Tail(b[i + 1])
  {
    var n := CharLen(b);
    assert IsChar(b[..n]);
    if i < n {
      assert b[..n][i] == b[i];
      assert i == 0 && n == 1;
      var m := CharLen(b[1..]);
      assert IsChar(b[1..][..m]);
      assert b[1..][..m][0] == b[1];
    } else {
      AsciiEndsChar(b[n..], i - n);
    }
  }

  /** Why no character starts at the front of `b`: a length for bytes that no
      character starts with, `None` when `b` ends inside a possible character. */
  function FrontError(b: bytes): Option<nat>
    requires b != [] && CharLen(b) == 0
  {
    if Width(b[0]) == 0 then Some(1)
    else if |b| < 2 then None
    else if !SecondOk(b[0], b[1]) then Some(1)
    else if |b| < 3 then None
    else if !Tail(b[2]) then Some(2)
    else if |b| < 4 then None
    else Some(3)
  }

  function Filler(a: byte): byte {
    if a == 0xE0 then 0xA0 else if a == 0xF0 then 0x90 else 0x80
  }

  /** An error without a length means more input could still complete a character. */
  lemma FrontErrorMeaning(b: bytes)
    requires b != [] && CharLen(b) == 0
    ensures FrontError(b).None? <==> exists more :: IsChar(b + more)
    ensures FrontError(b).None? ==> |b| < 4
  {
    if FrontError(b).None? {
      assert b == b[..|b|];
      var second: byte := Filler(b[0]);
      if |b| == 1 {
        var more := [second, 0x80, 0x80][..Width(b[0]) - 1];
        assert IsChar(b + more);
      } else if |b| == 2 {
        var more := [0x80, 0x80][..Width(b[0]) - 2];
        assert IsChar(b + more);
      } else {
        assert IsChar(b + [0x80]);
      }
    } else {
      forall more
        ensures !IsChar(b + more)
      {
        NoCharAfterError(b, more);
      }
    }
  }

  /** An error with a length is final: no continuation makes a character. */
  lemma NoCharAfterError(b: bytes, more: bytes)
    requires b != [] && CharLen(b) == 0 && FrontError(b).Some?
    ensures CharLen(b + more) == 0 && !IsChar(b + more)
  {
    var s := b + more;
    assert forall i | 0 <= i < |b| :: s[i] == b[i];
    var w := Width(b[0]);
    if 0 < w <= |b| {
      assert s[..w] == b[..w];
    } else if 0 < w <= |s| {
      assert s[..w][0] == b[0] && s[..w][1] == b[1];
      assert |b| > 2 ==> s[..w][2] == b[2];
    }
    assert |s| == w ==> s[..w] == s;
  }

  datatype Utf8Check = Valid8 | Invalid8(validUpTo: nat, errorLen: Option<nat>)

  /** `str::from_utf8`: where the valid prefix ends and what stopped it. */
  function FromUtf8(b: bytes): (r: Utf8Check)
    ensures r.Valid8? <==> Valid(b)
    ensures r.Invalid8? ==> r.validUpTo < |b|
  {
    if b == [] then Valid8
    else if CharLen(b) == 0 then Invalid8(0, FrontError(b))
    else
      match FromUtf8(b[CharLen(b)..])
      case Valid8 => Valid8
      case Invalid8(v, l) => Invalid8(v + CharLen(b), l)
  }

  lemma {:induction false} FromUtf8Meaning(b: bytes)
    requires FromUtf8(b).Invalid8?
    ensures var v := FromUtf8(b).validUpTo;
            && Valid(b[..v])
            && CharLen(b[v..]) == 0
            && FromUtf8(b).errorLen == FrontError(b[v..])
  {
    hide CharLen, FrontError, Valid;
    var n, v := CharLen(b), FromUtf8(b).validUpTo;
    if n > 0 {
      FromUtf8Meaning(b[n..]);
      ValidFront(b, v);
      TailSlice(b, n, v - n, |b| - n);
      TailSlice(b, n, 0, v - n);
    } else {
      NothingValid();
      assert b[v..] == b;
    }
  }

  lemma NothingValid()
    ensures Valid([])
  {
  }

  /** A prefix that keeps the first character is valid when the rest of it is. */
  lemma ValidFront(b: bytes, v: nat)
    requires 0 < CharLen(b) <= v <= |b|
    ensures Valid(b[..v]) <==> Valid(b[CharLen(b)..v])
  {
    hide CharLen;
    CharLenPrefix(b, v);
    PrefixTail(b, CharLen(b), v);
  }

  /** `memchr`: the first position of `x`. */
  function IndexOf(b: bytes, x: byte): Option<nat> {
    if b == [] then None
    else if b[0] == x then Some(0)
    else match IndexOf(b[1..], x) case None => None case Some(i) => Some(i + 1)
  }

  lemma {:induction false} IndexOfMeaning(b: bytes, x: byte)
    ensures match IndexOf(b, x)
            case None => x !in b
            case Some(i) => i < |b| && b[i] == x && x !in b[..i]
  {
    if b != [] && b[0] != x {
      IndexOfMeaning(b[1..], x);
      match IndexOf(b[1..], x)
      case None =>
        assert b == [b[0]] + b[1..];
      case Some(i) =>
        assert b[..i + 1] == [b[0]] + b[1..][..i];
    }
  }

  lemma {:induction false} IndexOfAppend(a: bytes, b: bytes, x: byte)
    ensures IndexOf(a + b, x)
         == match IndexOf(a, x)
            case Some(i) => Some(i)
            case None => (match IndexOf(b, x) case None => None case Some(i) => Some(|a| + i))
  {
    if a == [] {
      assert a + b == b;
    } else {
      assert (a + b)[1..] == a[1..] + b;
      IndexOfAppend(a[1..], b, x);
    }
  }

  /** Cutting `b` short hides its first character exactly when it no longer fits. */
  lemma CharLenPrefix(b: bytes, m: nat)
    requires m <= |b|
    ensures CharLen(b[..m]) == if CharLen(b) <= m then CharLen(b) else 0
  {
    assert forall n | 0 <= n <= m :: b[..m][..n] == b[..n];
    assert m > 0 ==> b[..m][0] == b[0];
  }

  /** Bytes that start no character, for good or at the end, spoil any text. */
  lemma BadBytesSpoil(good: bytes, bad: bytes, more: bytes)
    requires Valid(good) && bad != [] && CharLen(bad) == 0
    requires FrontError(bad) == None ==> more == []
    ensures !Valid(good + (bad + more))
  {
    if FrontError(bad) == None {
      assert bad + more == bad;
    } else {
      NoCharAfterError(bad, more);
    }
    ValidAppend(good, bad + more);
  }

  /** A chunk error that is final, or that ends the buffer, condemns the rest. */
  lemma ChunkErrorIsFinal(chunk: bytes, more: bytes)
    requires FromUtf8(chunk).Invalid8?
    requires FromUtf8(chunk).errorLen == None ==> more == []
    ensures !Valid(chunk + more)
  {
    hide IsChar, CharLen, FromUtf8, Valid;
    FromUtf8Meaning(chunk);
    var v := FromUtf8(chunk).validUpTo;
    BadBytesSpoil(chunk[..v], chunk[v..], more);
    assert chunk + more == chunk[..v] + (chunk[v..] + more);
  }

  /** A chunk that holds no whole character is narrower than the one there. */
  lemma ChunkTooNarrow(rest: bytes, chunkSize: nat)
    requires rest != []
    requires CharLen(rest[..Min(chunkSize, |rest|)]) == 0
    ensures Valid(rest) ==> Widest(rest) > chunkSize
  {
    CharLenPrefix(rest, Min(chunkSize, |rest|));
  }

  lemma WidestAtMostLength(b: bytes)
    requires Valid(b)
    ensures Widest(b) <= |b|
  {
  }

  /** How much of the next chunk is whole characters, or `None` to give up. */
  function ChunkProgress(chunk: bytes, more: bytes): Option<nat> {
    match FromUtf8(chunk)
    case Valid8 => if chunk == [] then None else Some(|chunk|)
    case Invalid8(v, errorLen) => if errorLen == None && more != [] && v > 0 then Some(v) else None
  }

  lemma ChunkProgressMeaning(rest: bytes, chunkSize: nat, m: nat)
    requires rest != [] && m == Min(chunkSize, |rest|)
    ensures match ChunkProgress(rest[..m], rest[m..])
            case None => !(Valid(rest) && Widest(rest) <= chunkSize)
            case Some(n) => 0 < n <= m && Valid(rest[..n])
  {
    var chunk, more := rest[..m], rest[m..];
    assert rest == chunk + more;
    match FromUtf8(chunk)
    case Valid8 =>
      if m == 0 {
        ChunkTooNarrow(rest, chunkSize);
      }
    case Invalid8(v, errorLen) =>
      FromUtf8Meaning(chunk);
      if errorLen != None || more == [] {
        ChunkErrorIsFinal(chunk, more);
      } else if v == 0 {
        assert chunk[0..] == chunk;
        ChunkTooNarrow(rest, chunkSize);
      } else {
        assert chunk[..v] == rest[..v];
      }
  }

  /** One turn of the scan after `done`, with `taken` at the front of `rest`:
      going on keeps what the scan knows. */
  lemma ScanAdvances(done: bytes, taken: bytes, chunkSize: nat)
    requires Valid(done) && Widest(done) <= chunkSize
    requires Valid(taken) && |taken| <= chunkSize
    ensures Valid(done + taken) && Widest(done + taken) <= chunkSize
    ensures IndexOf(done + taken, 0)
         == match IndexOf(done, 0)
            case Some(i) => Some(i)
            case None => (match IndexOf(taken, 0) case None => None case Some(i) => Some(|done| + i))
  {
    ValidAppend(done, taken);
    WidestAtMostLength(taken);
    IndexOfAppend(done, taken, 0);
  }

  /** Giving up after `done` is right when what remains is not valid or too wide. */
  lemma ScanGivesUp(data: bytes, pos: nat, chunkSize: nat)
    requires pos <= |data| && Valid(data[..pos])
    requires !(Valid(data[pos..]) && Widest(data[pos..]) <= chunkSize)
    ensures !(Valid(data) && Widest(data) <= chunkSize)
  {
    var done, rest := data[..pos], data[pos..];
    assert data == done + rest;
    ValidAppend(done, rest);
  }

  /** Validate `data` and find its first NUL in one pass over chunks of
      `chunkSize` bytes; `None` means not valid UTF-8. */
  method ValidateUtf8AndFindNul(data: bytes, chunkSize: nat) returns (r: Option<Option<nat>>)
    ensures r == if Valid(data) && Widest(data) <= chunkSize then Some(IndexOf(data, 0)) else None
  {
    hide IsChar, CharLen, FrontError, FromUtf8, Valid, Widest, IndexOf;
    var pos := 0;
    var firstNul: Option<nat> := None;
    NothingScanned();
    ghost var done: bytes := [];
    while pos < |data|
      invariant 0 <= pos <= |data| && done == data[..pos]
      invariant Valid(done) && Widest(done) <= chunkSize
      invariant firstNul == IndexOf(done, 0)
      decreases |data| - pos
    {
      var end := Min(pos + chunkSize, |data|);
      var chunk := data[pos..end];
      SplitAt(data, pos, end);
      ChunkProgressMeaning(data[pos..], chunkSize, end - pos);
      var validLen := |chunk|;
      match FromUtf8(chunk) {
        case Valid8 =>
        case Invalid8(validUpTo, errorLen) =>
          if errorLen == None && end < |data| {
            validLen := validUpTo;
          } else {
            ScanGivesUp(data, pos, chunkSize);
            return None;
          }
      }
      if validLen == 0 {
        ScanGivesUp(data, pos, chunkSize);
        return None;
      }
      var taken := chunk[..validLen];
      ScanAdvances(done, taken, chunkSize);
      if firstNul == None {
        match IndexOf(taken, 0) {
          case None =>
          case Some(i) => firstNul := Some(pos + i);
        }
      }
      done := done + taken;
      pos := pos + validLen;
    }
    assert done == data;
    return Some(firstNul);
  }

  lemma NothingScanned()
    ensures Valid([]) && Widest([]) == 0 && IndexOf([], 0) == None
  {
  }

  /** The pieces of `data` around a chunk, as slices of each other. */
  lemma SplitAt(data: bytes, pos: nat, end: nat)
    requires pos <= end <= |data|
    ensures data[pos..][..end - pos] == data[pos..end]
    ensures data[pos..][end - pos..] == data[end..]
    ensures forall n | 0 <= n <= end - pos ::
              data[pos..][..n] == data[pos..end][..n] && data[..pos + n] == data[..pos] + data[pos..end][..n]
  {
  }

  /** From four bytes up, chunking never changes the answer. */
  lemma WideChunksAreExact(data: bytes, chunkSize: nat)
    requires Valid(data) && chunkSize >= 4
    ensures Widest(data) <= chunkSize
  {
  }

  /** Large enough that the few bytes carried over do not matter. */
  const CHUNK: nat := 1_048_576

  /** The scan as it is run: the first NUL of valid text, or nothing. */
  method ScanText(data: bytes) returns (r: Option<Option<nat>>)
    ensures r == if Valid(data) then Some(IndexOf(data, 0)) else None
  {
    ghost var ok := Valid(data);
    if ok {
      WideChunksAreExact(data, CHUNK);
    }
    r := ValidateUtf8AndFindNul(data, CHUNK);
  }

  /** Below four bytes it does: a four-byte character is then rejected. */
  lemma NarrowChunksReject(chunkSize: nat)
    requires chunkSize < 4
    ensures var data := Encode(0x1F600);
            Valid(data) && Widest(data) > chunkSize
  {
    var data := Encode(0x1F600);
    CharLenOf(data, []);
    assert data + [] == data;
    assert data[4..] == [];
  }
}
