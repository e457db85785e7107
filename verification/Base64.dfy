/** The padded base64 of section 4 of RFC 4648. Bits are packed by arithmetic:
    the fields that the shifts place side by side never overlap. */
module Base64 {
  import opened Bytes

  const PAD: byte := 61

  /** `n >> 6 * k`. */
  function Shr6(n: nat, k: nat): nat {
    if k == 0 then n else Shr6(n, k - 1) / 64
  }

  /** `n << 6 * k`. */
  function Shl6(n: nat, k: nat): nat {
    if k == 0 then n else 64 * Shl6(n, k - 1)
  }

  /** `n >> 8 * k`. */
  function Shr8(n: nat, k: nat): nat {
    if k == 0 then n else Shr8(n, k - 1) / 256
  }

  /** `n << 8 * k`. */
  function Shl8(n: nat, k: nat): nat {
    if k == 0 then n else 256 * Shl8(n, k - 1)
  }

  /** The alphabet: `A`-`Z`, `a`-`z`, `0`-`9`, `+`, `/`. */
  function Digit(v: nat): byte
    requires v < 64
  {
    var c: int :=
      if v < 26 then 65 + v
      else if v < 52 then 71 + v
      else if v < 62 then v - 4
      else if v == 62 then 43
      else 47;
    c
  }

  /** Position of `c` in the alphabet. */
  function Value(c: byte): (r: Option<nat>)
    ensures r.Some? ==> r.value < 64
  {
    if 65 <= c <= 90 then Some(c - 65)
    else if 97 <= c <= 122 then Some(c - 71)
    else if 48 <= c <= 57 then Some(c + 4)
    else if c == 43 then Some(62)
    else if c == 47 then Some(63)
    else None
  }

  /** The alphabet has 64 different characters, none of them the pad. */
  lemma ValueInvertsDigit(v: nat, c: byte)
    requires v < 64
    ensures Value(c) == Some(v) <==> Digit(v) == c
    ensures Digit(v) != PAD
  {
  }

  // ---------------------------------------------------------------------------
  // Encoding

  /** The first bytes of a chunk, left-aligned in 24 bits. */
  function Packed(chunk: bytes, k: nat): nat
    requires k <= |chunk| <= 3
  {
    if k == 0 then 0 else Packed(chunk, k - 1) + Shl8(chunk[k - 1], 3 - k)
  }

  function ByteAt(chunk: bytes, i: nat): nat {
    if i < |chunk| then chunk[i] else 0
  }

  lemma PackedSum(chunk: bytes)
    requires 1 <= |chunk| <= 3
    ensures Packed(chunk, |chunk|) == ByteAt(chunk, 0) * 65536 + ByteAt(chunk, 1) * 256 + ByteAt(chunk, 2)
  {
    assert Packed(chunk, 1) == Packed(chunk, 0) + Shl8(chunk[0], 2);
    UnfoldShl8(chunk[0]);
    if |chunk| > 1 {
      assert Packed(chunk, 2) == Packed(chunk, 1) + Shl8(chunk[1], 1);
      UnfoldShl8(chunk[1]);
    }
    if |chunk| > 2 {
      assert Packed(chunk, 3) == Packed(chunk, 2) + Shl8(chunk[2], 0);
    }
  }

  lemma UnfoldShl8(v: nat)
    ensures Shl8(v, 0) == v && Shl8(v, 1) == 256 * v && Shl8(v, 2) == 65536 * v
  {
    assert Shl8(v, 1) == 256 * Shl8(v, 0) && Shl8(v, 2) == 256 * Shl8(v, 1);
  }

  /** Character `i` of an encoded chunk of `len` bytes packed in `n`. */
  function EncodedChar(n: nat, len: nat, i: nat): byte
    requires i < 4
  {
    if i <= len then Digit(Shr6(n, 3 - i) % 64) else PAD
  }

  function EncodeChunk(chunk: bytes): bytes
    requires |chunk| <= 3
  {
    var n := Packed(chunk, |chunk|);
    [EncodedChar(n, |chunk|, 0), EncodedChar(n, |chunk|, 1), EncodedChar(n, |chunk|, 2), EncodedChar(n, |chunk|, 3)]
  }

  function Encode(data: bytes): bytes {
    if data == [] then [] else EncodeChunk(data[..Min(3, |data|)]) + Encode(data[Min(3, |data|)..])
  }

  method Base64Encode(data: bytes) returns (out: bytes)
    ensures out == Encode(data)
  {
    hide EncodeChunk;
    out := [];
    var pos := 0;
    while pos < |data|
      invariant 0 <= pos <= |data| && Encode(data) == out + Encode(data[pos..])
    {
      var end := Min(pos + 3, |data|);
      var chunk := data[pos..end];
      assert data[pos..][..Min(3, |data[pos..]|)] == chunk && data[pos..][Min(3, |data[pos..]|)..] == data[end..];
      var text := PushChunk(chunk);
      Regroup(out, text, Encode(data[end..]));
      out := out + text;
      pos := end;
    }
  }

  method PushChunk(chunk: bytes) returns (text: bytes)
    requires |chunk| <= 3
    ensures text == EncodeChunk(chunk)
  {
    hide Digit, Shr6, Shl8;
    var n, i := 0, 0;
    while i < |chunk|
      invariant 0 <= i <= |chunk| && n == Packed(chunk, i)
    {
      n := n + Shl8(chunk[i], 2 - i);
      i := i + 1;
    }
    text := [];
    i := 0;
    while i < 4
      invariant 0 <= i <= 4 && |text| == i
      invariant forall j | 0 <= j < i :: text[j] == EncodedChar(n, |chunk|, j)
    {
      if i <= |chunk| {
        text := text + [Digit(Shr6(n, 3 - i) % 64)];
      } else {
        text := text + [PAD];
      }
      i := i + 1;
    }
  }

  // ---------------------------------------------------------------------------
  // Decoding

  /** How many pads end the first `k` characters of a chunk. */
  function TrailingPads(chunk: bytes, k: nat): nat
    requires k <= |chunk|
  {
    if k == 0 || chunk[k - 1] != PAD then 0 else 1 + TrailingPads(chunk, k - 1)
  }

  lemma {:induction false} PadsWithin(chunk: bytes, k: nat)
    requires k <= |chunk|
    ensures TrailingPads(chunk, k) <= k
    ensures forall i | k - TrailingPads(chunk, k) <= i < k :: chunk[i] == PAD
  {
    if k > 0 && chunk[k - 1] == PAD {
      PadsWithin(chunk, k - 1);
    }
  }

  /** The first `k` characters' values, left-aligned in 24 bits. */
  function Unpacked(chunk: bytes, k: nat): Option<nat>
    requires k <= |chunk| == 4
  {
    if k == 0 then Some(0)
    else
      match Unpacked(chunk, k - 1)
      case None => None
      case Some(n) => match Value(chunk[k - 1]) case None => None case Some(v) => Some(n + Shl6(v, 4 - k))
  }

  /** Bytes `1..4 - pad` of a big-endian 32-bit number. */
  function LowBytes(n: nat, pad: nat): bytes
    requires pad <= 2
  {
    var b0: int, b1: int, b2: int := Shr8(n, 2) % 256, Shr8(n, 1) % 256, n % 256;
    [b0, b1, b2][..3 - pad]
  }

  function DecodeChunk(chunk: bytes, last: bool): Option<bytes>
    requires |chunk| == 4
  {
    var pad := TrailingPads(chunk, 4);
    if pad > 2 || (pad > 0 && !last) then None
    else match Unpacked(chunk, 4 - pad) case None => None case Some(n) => Some(LowBytes(n, pad))
  }

  function DecodeChunks(text: bytes): Option<bytes>
    requires |text| % 4 == 0
  {
    if text == [] then Some([])
    else
      match DecodeChunk(text[..4], |text| == 4)
      case None => None
      case Some(head) => Prepend(head, DecodeChunks(text[4..]))
  }

  function Decode(text: bytes): Option<bytes> {
    if |text| % 4 != 0 then None else DecodeChunks(text)
  }

  function Prepend(head: bytes, tail: Option<bytes>): Option<bytes> {
    match tail case None => None case Some(t) => Some(head + t)
  }

  lemma PrependNothing(tail: Option<bytes>)
    ensures Prepend([], tail) == tail
  {
    if tail.Some? {
      assert [] + tail.value == tail.value;
    }
  }

  lemma PrependTwice(a: bytes, b: bytes, tail: Option<bytes>)
    ensures Prepend(a, Prepend(b, tail)) == Prepend(a + b, tail)
  {
    if tail.Some? {
      Regroup(a, b, tail.value);
    }
  }

  method Base64Decode(text: bytes) returns (r: Option<bytes>)
    ensures r == Decode(text)
  {
    hide DecodeChunk;
    if |text| % 4 != 0 {
      return None;
    }
    var out: bytes := [];
    var pos := 0;
    assert text[0..] == text;
    PrependNothing(DecodeChunks(text));
    while pos < |text|
      invariant 0 <= pos <= |text| && pos % 4 == 0
      invariant Decode(text) == Prepend(out, DecodeChunks(text[pos..]))
    {
      var chunk := text[pos..pos + 4];
      assert text[pos..][..4] == chunk && text[pos..][4..] == text[pos + 4..];
      var part := TakeChunk(chunk, pos + 4 == |text|);
      if part == None {
        return None;
      }
      PrependTwice(out, part.value, DecodeChunks(text[pos + 4..]));
      out := out + part.value;
      pos := pos + 4;
    }
    assert text[pos..] == [] && out + [] == out;
    return Some(out);
  }

  method TakeChunk(chunk: bytes, last: bool) returns (r: Option<bytes>)
    requires |chunk| == 4
    ensures r == DecodeChunk(chunk, last)
  {
    hide LowBytes, Value, Shl6, TrailingPads;
    var pad := TrailingPads(chunk, 4);
    if pad > 2 || (pad > 0 && !last) {
      return None;
    }
    var n, i := 0, 0;
    while i < 4 - pad
      invariant 0 <= i <= 4 - pad && Unpacked(chunk, i) == Some(n)
    {
      var v := Value(chunk[i]);
      if v == None {
        UnpackedFails(chunk, i + 1, 4 - pad);
        return None;
      }
      n := n + Shl6(v.value, 3 - i);
      i := i + 1;
    }
    return Some(LowBytes(n, pad));
  }

  lemma {:induction false} UnpackedFails(chunk: bytes, i: nat, k: nat)
    requires i <= k <= |chunk| == 4 && Unpacked(chunk, i) == None
    ensures Unpacked(chunk, k) == None
    decreases k
  {
    if i < k {
      UnpackedFails(chunk, i, k - 1);
    }
  }

  // ---------------------------------------------------------------------------
  // Round trips

  /** 24 bits as four groups of six and as three groups of eight. */
  lemma Groups(n: nat)
    requires n < 16777216
    ensures Shr6(n, 3) < 64
    ensures n == Shl6(Shr6(n, 3) % 64, 3) + Shl6(Shr6(n, 2) % 64, 2) + Shl6(Shr6(n, 1) % 64, 1) + Shr6(n, 0) % 64
  {
    var q1, q2, q3 := Shr6(n, 1), Shr6(n, 2), Shr6(n, 3);
    assert Shr6(n, 0) == n && q1 == n / 64 && q2 == q1 / 64 && q3 == q2 / 64;
    UnfoldShl6(q3 % 64);
    UnfoldShl6(q2 % 64);
    UnfoldShl6(q1 % 64);
  }

  lemma UnfoldShl6(v: nat)
    ensures Shl6(v, 0) == v && Shl6(v, 1) == 64 * v && Shl6(v, 2) == 4096 * v && Shl6(v, 3) == 262144 * v
  {
    assert Shl6(v, 1) == 64 * Shl6(v, 0) && Shl6(v, 2) == 64 * Shl6(v, 1) && Shl6(v, 3) == 64 * Shl6(v, 2);
  }

  lemma BytesOf(a: nat, b: nat, c: nat)
    requires a < 256 && b < 256 && c < 256
    ensures var n := a * 65536 + b * 256 + c;
            Shr8(n, 2) % 256 == a && Shr8(n, 1) % 256 == b && n % 256 == c
  {
    var n := a * 65536 + b * 256 + c;
    assert Shr8(n, 1) == Shr8(n, 0) / 256 && Shr8(n, 2) == Shr8(n, 1) / 256;
    assert n / 256 == a * 256 + b;
  }

  lemma LowBytesOf(chunk: bytes)
    requires 1 <= |chunk| <= 3
    ensures LowBytes(Packed(chunk, |chunk|), 3 - |chunk|) == chunk
    ensures Packed(chunk, |chunk|) < 16777216
    ensures |chunk| == 2 ==> Packed(chunk, 2) % 64 == 0
    ensures |chunk| == 1 ==> Packed(chunk, 1) % 4096 == 0
  {
    hide Packed, Shr8, LowBytes;
    var a, b, c := ByteAt(chunk, 0), ByteAt(chunk, 1), ByteAt(chunk, 2);
    PackedSum(chunk);
    DivMod(a * 1024 + b * 4, 0, 64);
    DivMod(a * 16, 0, 4096);
    ThreeBytes(a, b, c, 3 - |chunk|);
  }

  lemma DivMod(q: nat, r: nat, base: nat)
    requires base in {64, 256, 4096} && r < base
    ensures (q * base + r) / base == q && (q * base + r) % base == r
  {
    if base == 64 {
      assert (q * 64 + r) / 64 == q;
    } else if base == 256 {
      assert (q * 256 + r) / 256 == q;
    } else {
      assert (q * 4096 + r) / 4096 == q;
    }
  }

  lemma ThreeBytes(a: nat, b: nat, c: nat, pad: nat)
    requires a < 256 && b < 256 && c < 256 && pad <= 2
    ensures var all: bytes := [a, b, c];
            LowBytes(a * 65536 + b * 256 + c, pad) == all[..3 - pad]
  {
    BytesOf(a, b, c);
  }

  /** Reading the characters of an encoded chunk gives the packed bits back. */
  lemma UnpackedEncoded(n: nat, len: nat, text: bytes)
    requires n < 16777216 && 1 <= len <= 3 && |text| == 4
    requires forall i | 0 <= i < 4 :: text[i] == EncodedChar(n, len, i)
    requires (len == 2 ==> n % 64 == 0) && (len == 1 ==> n % 4096 == 0)
    ensures TrailingPads(text, 4) == 3 - len && Unpacked(text, len + 1) == Some(n)
  {
    hide Digit, Value;
    Groups(n);
    forall i | 0 <= i < 4
      ensures i <= len ==> Value(text[i]) == Some(Shr6(n, 3 - i) % 64) && text[i] != PAD
      ensures i > len ==> text[i] == PAD
    {
      ValueInvertsDigit(Shr6(n, 3 - i) % 64, text[i]);
    }
    assert Unpacked(text, 0) == Some(0);
    assert Unpacked(text, 1) == Some(Shl6(Shr6(n, 3) % 64, 3));
    assert Unpacked(text, 2) == Some(Shl6(Shr6(n, 3) % 64, 3) + Shl6(Shr6(n, 2) % 64, 2));
    LowGroupsVanish(n);
    if len == 1 {
      assert TrailingPads(text, 4) == 1 + TrailingPads(text, 3);
    } else {
      assert Unpacked(text, 3) == Some(Shl6(Shr6(n, 3) % 64, 3) + Shl6(Shr6(n, 2) % 64, 2) + Shl6(Shr6(n, 1) % 64, 1));
    }
  }

  lemma LowGroupsVanish(n: nat)
    ensures n % 64 == 0 ==> Shr6(n, 0) % 64 == 0
    ensures n % 4096 == 0 ==> Shr6(n, 0) % 64 == 0 && Shr6(n, 1) % 64 == 0
    ensures Shl6(0, 1) == 0
  {
    assert Shr6(n, 1) == Shr6(n, 0) / 64;
    UnfoldShl6(0);
  }

  lemma ChunkRoundTrip(chunk: bytes)
    requires 1 <= |chunk| <= 3
    ensures DecodeChunk(EncodeChunk(chunk), true) == Some(chunk)
    ensures |chunk| == 3 ==> DecodeChunk(EncodeChunk(chunk), false) == Some(chunk)
  {
    hide Packed, LowBytes, Unpacked, TrailingPads, EncodedChar;
    LowBytesOf(chunk);
    UnpackedEncoded(Packed(chunk, |chunk|), |chunk|, EncodeChunk(chunk));
  }

  /** Decoding what was encoded gives the bytes back, and the text has four
      characters for every three bytes begun. */
  lemma {:induction false} RoundTrip(data: bytes)
    ensures Decode(Encode(data)) == Some(data)
    ensures |Encode(data)| == (|data| + 2) / 3 * 4
  {
    hide EncodeChunk, DecodeChunk;
    if data != [] {
      var k := Min(3, |data|);
      var head, rest := data[..k], data[k..];
      RoundTrip(rest);
      ChunkRoundTrip(head);
      EncodeChunkLength(head);
      var text := Encode(data);
      assert text[..4] == EncodeChunk(head) && text[4..] == Encode(rest);
      assert |text| == 4 <==> rest == [];
      assert data == head + rest;
    }
  }

  /** Pads fill the last chunk and stand nowhere else: none, one or two of them,
      for as many bytes as are missing from the last three. */
  lemma {:induction false} PaddingRule(data: bytes)
    ensures var text, pads := Encode(data), Pads(data);
            && pads <= |text|
            && forall i | 0 <= i < |text| :: text[i] == PAD <==> |text| - pads <= i
  {
    hide EncodeChunk, Encode;
    if data == [] {
      EncodeNothing();
    } else if |data| <= 3 {
      EncodeOneChunk(data);
      ChunkPadding(data);
    } else {
      PaddingRule(data[3..]);
      ChunkPadding(data[..3]);
      RoundTrip(data[3..]);
      FullChunkFirst(data);
      assert Pads(data) == Pads(data[3..]);
    }
  }

  /** A full group of three in front is encoded in front. */
  lemma FullChunkFirst(data: bytes)
    requires |data| > 3
    ensures Encode(data) == EncodeChunk(data[..3]) + Encode(data[3..])
  {
    hide EncodeChunk, Encode;
    EncodeCons(data[..3], data[3..]);
    assert data == data[..3] + data[3..];
  }

  /** How many bytes are missing from the last group of three. */
  function Pads(data: bytes): nat {
    (3 - |data| % 3) % 3
  }

  lemma ChunkPadding(chunk: bytes)
    requires 1 <= |chunk| <= 3
    ensures |EncodeChunk(chunk)| == 4
    ensures forall i | 0 <= i < 4 :: EncodeChunk(chunk)[i] == PAD <==> |chunk| < i
  {
    hide Digit, Shr6, Packed;
    EncodeChunkLength(chunk);
    var n := Packed(chunk, |chunk|);
    forall i | 0 <= i < 4
      ensures EncodeChunk(chunk)[i] == PAD <==> |chunk| < i
    {
      DigitIsNotPad(Shr6(n, 3 - i) % 64);
    }
  }

  lemma DigitIsNotPad(v: nat)
    requires v < 64
    ensures Digit(v) != PAD
  {
  }

  lemma EncodeChunkLength(chunk: bytes)
    requires |chunk| <= 3
    ensures |EncodeChunk(chunk)| == 4
  {
  }

  /** Unused bits of the last character that carries data are zero. */
  predicate CanonicalChunk(chunk: bytes)
    requires |chunk| == 4
  {
    match TrailingPads(chunk, 4)
    case 1 => Value(chunk[2]).Some? && Value(chunk[2]).value % 4 == 0
    case 2 => Value(chunk[1]).Some? && Value(chunk[1]).value % 16 == 0
    case _ => true
  }

  predicate Canonical(text: bytes) {
    |text| >= 4 ==> CanonicalChunk(text[|text| - 4..])
  }

  lemma SextetsOf(a: nat, b: nat, c: nat, d: nat)
    requires a < 64 && b < 64 && c < 64 && d < 64
    ensures var n := a * 262144 + b * 4096 + c * 64 + d;
            Shr6(n, 3) % 64 == a && Shr6(n, 2) % 64 == b && Shr6(n, 1) % 64 == c && Shr6(n, 0) % 64 == d
  {
    var n := a * 262144 + b * 4096 + c * 64 + d;
    DivMod(a * 4096 + b * 64 + c, d, 64);
    DivMod(a * 64 + b, c, 64);
    DivMod(a, b, 64);
    assert Shr6(n, 1) == Shr6(n, 0) / 64 && Shr6(n, 2) == Shr6(n, 1) / 64 && Shr6(n, 3) == Shr6(n, 2) / 64;
  }

  /** Six-bit groups `a b c d` as bytes. */
  lemma BytesOfSextets(a: nat, b: nat, c: nat, d: nat)
    requires a < 64 && b < 64 && c < 64 && d < 64
    ensures var n := a * 262144 + b * 4096 + c * 64 + d;
            && Shr8(n, 2) % 256 == a * 4 + b / 16
            && Shr8(n, 1) % 256 == b % 16 * 16 + c / 4
            && n % 256 == c % 4 * 64 + d
  {
    var n := a * 262144 + b * 4096 + c * 64 + d;
    var x, y, z := a * 4 + b / 16, b % 16 * 16 + c / 4, c % 4 * 64 + d;
    assert n == x * 65536 + y * 256 + z;
    BytesOf(x, y, z);
  }

  function SextetAt(chunk: bytes, i: nat): nat
    requires i < |chunk|
  {
    match Value(chunk[i]) case None => 0 case Some(v) => v
  }

  /** The characters before the pads all have values, which fill the 24 bits. */
  lemma UnpackedSum(chunk: bytes, k: nat)
    requires |chunk| == 4 && 2 <= k <= 4 && Unpacked(chunk, k).Some?
    ensures forall i | 0 <= i < k :: Value(chunk[i]).Some?
    ensures Unpacked(chunk, k).value
         == SextetAt(chunk, 0) * 262144 + SextetAt(chunk, 1) * 4096
            + (if k > 2 then SextetAt(chunk, 2) * 64 else 0) + (if k > 3 then SextetAt(chunk, 3) else 0)
  {
    hide Value;
    UnfoldShl6(SextetAt(chunk, 0));
    UnfoldShl6(SextetAt(chunk, 1));
    UnfoldShl6(SextetAt(chunk, 2));
    assert Unpacked(chunk, k - 1).Some?;
    assert k > 2 ==> Unpacked(chunk, k - 2).Some?;
    assert k > 3 ==> Unpacked(chunk, k - 3).Some?;
    assert Unpacked(chunk, 1).Some? && Unpacked(chunk, 0) == Some(0);
    assert Unpacked(chunk, 1).value == Shl6(SextetAt(chunk, 0), 3);
    assert Unpacked(chunk, 2).value == Unpacked(chunk, 1).value + Shl6(SextetAt(chunk, 1), 2);
    assert k > 2 ==> Unpacked(chunk, 3).value == Unpacked(chunk, 2).value + Shl6(SextetAt(chunk, 2), 1);
    assert k > 3 ==> Unpacked(chunk, 4).value == Unpacked(chunk, 3).value + SextetAt(chunk, 3);
  }

  /** What an encoded chunk says, group by group. */
  lemma EncodedSextets(data: bytes, a: nat, b: nat, c: nat, d: nat)
    requires 1 <= |data| <= 3 && a < 64 && b < 64 && c < 64 && d < 64
    requires Packed(data, |data|) == a * 262144 + b * 4096 + c * 64 + d
    ensures EncodeChunk(data)
         == [Digit(a), Digit(b), if |data| > 1 then Digit(c) else PAD, if |data| > 2 then Digit(d) else PAD]
  {
    hide Packed, Shr6, Digit;
    SextetsOf(a, b, c, d);
  }

  /** A chunk comes back from its bytes exactly when its unused bits are zero. */
  lemma ChunkCanonicalExactly(chunk: bytes, last: bool)
    requires |chunk| == 4 && DecodeChunk(chunk, last).Some?
    ensures var data := DecodeChunk(chunk, last).value;
            && 1 <= |data| <= 3 && |data| == 3 - TrailingPads(chunk, 4)
            && (EncodeChunk(data) == chunk <==> CanonicalChunk(chunk))
  {
    hide Shr8, Unpacked, EncodeChunk, TrailingPads, CanonicalChunk, Value;
    var pad := TrailingPads(chunk, 4);
    PadsWithin(chunk, 4);
    var n := Unpacked(chunk, 4 - pad).value;
    if pad == 0 {
      NoPadCanonical(chunk, n);
    } else if pad == 1 {
      OnePadCanonical(chunk, n);
    } else {
      TwoPadsCanonical(chunk, n);
    }
  }

  lemma NoPadCanonical(chunk: bytes, n: nat)
    requires |chunk| == 4 && TrailingPads(chunk, 4) == 0 && Unpacked(chunk, 4) == Some(n)
    ensures EncodeChunk(LowBytes(n, 0)) == chunk && CanonicalChunk(chunk)
  {
    hide Packed, Shr6, Shr8, Digit, Value, Unpacked, TrailingPads, EncodeChunk;
    UnpackedSum(chunk, 4);
    var a, b, c, d := SextetAt(chunk, 0), SextetAt(chunk, 1), SextetAt(chunk, 2), SextetAt(chunk, 3);
    BytesOfSextets(a, b, c, d);
    PackedSum(LowBytes(n, 0));
    EncodedSextets(LowBytes(n, 0), a, b, c, d);
    ValueInvertsDigit(a, chunk[0]);
    ValueInvertsDigit(b, chunk[1]);
    ValueInvertsDigit(c, chunk[2]);
    ValueInvertsDigit(d, chunk[3]);
  }

  lemma OnePadCanonical(chunk: bytes, n: nat)
    requires |chunk| == 4 && TrailingPads(chunk, 4) == 1 && chunk[3] == PAD && Unpacked(chunk, 3) == Some(n)
    ensures EncodeChunk(LowBytes(n, 1)) == chunk <==> CanonicalChunk(chunk)
  {
    hide Packed, Shr6, Shr8, Digit, Value, Unpacked, TrailingPads, EncodeChunk;
    UnpackedSum(chunk, 3);
    var a, b, c := SextetAt(chunk, 0), SextetAt(chunk, 1), SextetAt(chunk, 2);
    BytesOfSextets(a, b, c, 0);
    PackedSum(LowBytes(n, 1));
    EncodedSextets(LowBytes(n, 1), a, b, c - c % 4, 0);
    ValueInvertsDigit(a, chunk[0]);
    ValueInvertsDigit(b, chunk[1]);
    ValueInvertsDigit(c, chunk[2]);
    DigitsDiffer(c, c - c % 4);
  }

  lemma TwoPadsCanonical(chunk: bytes, n: nat)
    requires |chunk| == 4 && TrailingPads(chunk, 4) == 2 && chunk[2] == chunk[3] == PAD && Unpacked(chunk, 2) == Some(n)
    ensures EncodeChunk(LowBytes(n, 2)) == chunk <==> CanonicalChunk(chunk)
  {
    hide Packed, Shr6, Shr8, Digit, Value, Unpacked, TrailingPads, EncodeChunk;
    UnpackedSum(chunk, 2);
    var a, b := SextetAt(chunk, 0), SextetAt(chunk, 1);
    BytesOfSextets(a, b, 0, 0);
    PackedSum(LowBytes(n, 2));
    EncodedSextets(LowBytes(n, 2), a, b - b % 16, 0, 0);
    ValueInvertsDigit(a, chunk[0]);
    ValueInvertsDigit(b, chunk[1]);
    DigitsDiffer(b, b - b % 16);
  }

  lemma DigitsDiffer(v: nat, w: nat)
    requires v < 64 && w < 64
    ensures Digit(v) == Digit(w) <==> v == w
  {
    ValueInvertsDigit(v, Digit(v));
    ValueInvertsDigit(w, Digit(v));
  }

  /** Encoding what was decoded gives the text back exactly when the unused bits
      of its last character are zero. */
  lemma {:induction false} DecodeEncodeExactly(text: bytes)
    requires Decode(text).Some?
    ensures Encode(Decode(text).value) == text <==> Canonical(text)
  {
    hide EncodeChunk, DecodeChunk, CanonicalChunk, Encode;
    if text == [] {
      assert Decode(text) == Some([]);
      EncodeNothing();
    } else {
      var chunk, rest := text[..4], text[4..];
      var head, tail := DecodeChunk(chunk, |text| == 4).value, Decode(rest).value;
      ChunkCanonicalExactly(chunk, |text| == 4);
      DecodeEncodeExactly(rest);
      EncodeChunkLength(head);
      assert text == chunk + rest;
      if rest == [] {
        assert text == chunk && text[|text| - 4..] == chunk;
        EncodeOneChunk(head);
        assert head + tail == head;
      } else {
        NoPadInside(chunk);
        assert text[|text| - 4..] == rest[|rest| - 4..];
        EncodeCons(head, tail);
        SameHead(chunk, Encode(tail), rest);
      }
    }
  }

  lemma EncodeNothing()
    ensures Encode([]) == []
  {
  }

  lemma EncodeCons(head: bytes, tail: bytes)
    requires |head| == 3
    ensures Encode(head + tail) == EncodeChunk(head) + Encode(tail)
  {
    assert (head + tail)[..3] == head && (head + tail)[3..] == tail;
  }

  lemma SameHead(a: bytes, b: bytes, c: bytes)
    ensures a + b == a + c <==> b == c
  {
    assert (a + b)[|a|..] == b && (a + c)[|a|..] == c;
  }

  lemma EncodeOneChunk(data: bytes)
    requires 1 <= |data| <= 3
    ensures Encode(data) == EncodeChunk(data)
  {
    assert data[..|data|] == data && data[|data|..] == [];
  }

  /** Only the last chunk may have pads. */
  lemma NoPadInside(chunk: bytes)
    requires |chunk| == 4 && DecodeChunk(chunk, false).Some?
    ensures TrailingPads(chunk, 4) == 0 && CanonicalChunk(chunk)
  {
  }

  /** So two texts can decode to the same bytes: `Zh==` and `Zg==`. */
  lemma NotCanonicalExample()
    ensures Decode([90, 104, PAD, PAD]) == Decode([90, 103, PAD, PAD]) == Some([102])
  {
    var a, b := [90, 104, PAD, PAD], [90, 103, PAD, PAD];
    ExampleChunk(a, 33);
    ExampleChunk(b, 32);
    DecodeOneChunk(a);
    DecodeOneChunk(b);
  }

  lemma DecodeOneChunk(t: bytes)
    requires |t| == 4
    ensures Decode(t) == DecodeChunk(t, true)
  {
    assert t[..4] == t && t[4..] == [];
    assert DecodeChunks([]) == Some([]);
    match DecodeChunk(t, true)
    case None =>
    case Some(head) => assert head + [] == head;
  }

  lemma ExampleChunk(t: bytes, v: nat)
    requires |t| == 4 && t[0] == 90 && t[2] == t[3] == PAD && Value(t[1]) == Some(v) && v in {32, 33}
    ensures DecodeChunk(t, true) == Some([102])
  {
    assert TrailingPads(t, 2) == 0 && TrailingPads(t, 3) == 1 && TrailingPads(t, 4) == 2;
    UnfoldShl6(25);
    UnfoldShl6(v);
    assert Unpacked(t, 0) == Some(0);
    assert Unpacked(t, 1) == Some(262144 * 25);
    assert Unpacked(t, 2) == Some(262144 * 25 + 4096 * v);
    BytesOfSextets(25, v, 0, 0);
    ThreeBytes(102, v % 16 * 16, 0, 2);
    var all: bytes := [102, v % 16 * 16, 0];
    assert all[..1] == [102];
  }

  // ---------------------------------------------------------------------------
  // What is encoded and what decodes

  /** The alphabet is `A` to `Z`, `a` to `z`, `0` to `9`, `+` and `/`, in this order. */
  lemma AlphabetIs()
    ensures Digit(0) == 'A' as int && Digit(25) == 'Z' as int && Digit(26) == 'a' as int && Digit(51) == 'z' as int
    ensures Digit(52) == '0' as int && Digit(61) == '9' as int && Digit(62) == '+' as int && Digit(63) == '/' as int
    ensures forall v: nat | v < 61 && v != 25 && v != 51 :: Digit(v + 1) == Digit(v) + 1
  {
  }

  /** The characters of an encoded chunk spell the 24 bits of its bytes, the first bits
      first, with zeros for the bytes it lacks. */
  lemma ChunkBits(chunk: bytes)
    requires 1 <= |chunk| <= 3
    ensures var text := EncodeChunk(chunk);
            && |text| == 4
            && SextetAt(text, 0) * 262144 + SextetAt(text, 1) * 4096 + SextetAt(text, 2) * 64 + SextetAt(text, 3)
               == ByteAt(chunk, 0) * 65536 + ByteAt(chunk, 1) * 256 + ByteAt(chunk, 2)
  {
    hide Packed, EncodeChunk, Digit, Value;
    var x, y, z := ByteAt(chunk, 0), ByteAt(chunk, 1), ByteAt(chunk, 2);
    var a, b, c, d := x / 4, x % 4 * 16 + y / 16, y % 16 * 4 + z / 64, z % 64;
    PackedSum(chunk);
    EncodedSextets(chunk, a, b, c, d);
    ValueInvertsDigit(a, Digit(a));
    ValueInvertsDigit(b, Digit(b));
    ValueInvertsDigit(c, Digit(c));
    ValueInvertsDigit(d, Digit(d));
    PadHasNoValue();
  }

  lemma PadHasNoValue()
    ensures Value(PAD) == None
  {
  }

  /** The character is of the alphabet, or one of at most two pads at the end. */
  predicate MayStand(text: bytes, i: nat)
    requires i < |text|
  {
    || Value(text[i]).Some?
    || (text[i] == PAD && i + 2 >= |text| && (i + 1 < |text| ==> text[i + 1] == PAD))
  }

  lemma {:induction false} UnpackedExactly(chunk: bytes, k: nat)
    requires k <= |chunk| == 4
    ensures Unpacked(chunk, k).Some? <==> forall i | 0 <= i < k :: Value(chunk[i]).Some?
  {
    hide Value;
    if k > 0 {
      UnpackedExactly(chunk, k - 1);
    }
  }

  lemma ChunkDecodesExactly(chunk: bytes, last: bool)
    requires |chunk| == 4
    ensures DecodeChunk(chunk, last).Some?
       <==> forall i | 0 <= i < 4 :: if last then MayStand(chunk, i) else Value(chunk[i]).Some?
  {
    hide Value, Unpacked, LowBytes;
    PadHasNoValue();
    UnpackedExactly(chunk, 4 - Min(TrailingPads(chunk, 4), 4));
    assert TrailingPads(chunk, 0) == 0;
    assert TrailingPads(chunk, 1) == if chunk[0] == PAD then 1 else 0;
    assert TrailingPads(chunk, 2) == if chunk[1] == PAD then 1 + TrailingPads(chunk, 1) else 0;
    assert TrailingPads(chunk, 3) == if chunk[2] == PAD then 1 + TrailingPads(chunk, 2) else 0;
    assert TrailingPads(chunk, 4) == if chunk[3] == PAD then 1 + TrailingPads(chunk, 3) else 0;
  }

  /** A text decodes exactly when it comes in fours, every character is of the alphabet
      but for one or two pads at the end. */
  lemma {:induction false} DecodesExactly(text: bytes)
    ensures Decode(text).Some? <==> |text| % 4 == 0 && forall i | 0 <= i < |text| :: MayStand(text, i)
  {
    hide DecodeChunk, MayStand;
    if |text| % 4 == 0 && text != [] {
      DecodesExactly(text[4..]);
      ChunkDecodesExactly(text[..4], |text| == 4);
      forall i | 0 <= i < |text|
        ensures i < 4 ==> (MayStand(text, i)
                <==> if |text| == 4 then MayStand(text[..4], i) else Value(text[..4][i]).Some?)
        ensures i >= 4 ==> (MayStand(text, i) <==> MayStand(text[4..], i - 4))
      {
        MayStandInPart(text, i);
      }
      PartsStand(text);
    }
  }

  lemma MayStandInPart(text: bytes, i: nat)
    requires |text| % 4 == 0 && i < |text|
    ensures i < 4 ==> (MayStand(text, i)
            <==> if |text| == 4 then MayStand(text[..4], i) else Value(text[..4][i]).Some?)
    ensures i >= 4 ==> (MayStand(text, i) <==> MayStand(text[4..], i - 4))
  {
    hide Value;
    assert |text| == 4 ==> text[..4] == text;
  }

  lemma PartsStand(text: bytes)
    requires |text| >= 4
    requires forall i | 4 <= i < |text| :: MayStand(text, i) <==> MayStand(text[4..], i - 4)
    ensures (forall i | 4 <= i < |text| :: MayStand(text, i))
       <==> forall i | 0 <= i < |text| - 4 :: MayStand(text[4..], i)
  {
    hide MayStand;
    forall i | 0 <= i < |text| - 4
      ensures MayStand(text[4..], i) <==> MayStand(text, i + 4)
    {
    }
  }
}
