/** Vocabulary shared by every module: bytes, spans and optional values. */
module Bytes {
  type byte = b: int | 0 <= b < 256

  type bytes = seq<byte>

  const NL: byte := 10
  const CR: byte := 13

  datatype Option<+T> = None | Some(value: T)

  /** A half-open byte range `start..end`. */
  datatype Span = Span(start: nat, end: nat)

  function Min(a: int, b: int): int {
    if a <= b then a else b
  }

  function Max(a: int, b: int): int {
    if a <= b then b else a
  }

  /** `Ord::clamp` for `lo <= hi`. */
  function Clamp(x: int, lo: int, hi: int): int {
    if x < lo then lo else if x > hi then hi else x
  }

  /** The concatenation of `parts`, in order. */
  function Flatten<T>(parts: seq<seq<T>>): seq<T> {
    if parts == [] then [] else Flatten(parts[..|parts| - 1]) + parts[|parts| - 1]
  }

  lemma InitOfConcat<T>(a: seq<T>, b: seq<T>)
    requires b != []
    ensures (a + b)[..|a + b| - 1] == a + b[..|b| - 1]
    ensures (a + b)[|a + b| - 1] == b[|b| - 1]
  {
  }

  lemma Regroup<T>(a: seq<T>, b: seq<T>, c: seq<T>)
    ensures (a + b) + c == a + (b + c)
  {
  }

  lemma SliceInSlice(s: bytes, a: nat, b: nat, i: nat, j: nat)
    requires a <= b <= |s| && i <= j <= b - a
    ensures s[a..b][i..j] == s[a + i..a + j]
  {
    assert forall k | 0 <= k < j - i :: s[a..b][i..j][k] == s[a + i..a + j][k];
  }

  /** Slices of a tail are slices of the whole. */
  lemma TailSlice(s: bytes, a: nat, i: nat, j: nat)
    requires a <= |s| && i <= j <= |s| - a
    ensures s[a..][i..j] == s[a + i..a + j] && s[a..][..j] == s[a..a + j] && s[a..][i..] == s[a + i..]
  {
    SliceInSlice(s, a, |s|, i, j);
    SliceInSlice(s, a, |s|, 0, j);
    SliceInSlice(s, a, |s|, i, |s| - a);
    assert s[a..] == s[a..|s|];
  }

  /** Slices that start within a prefix end with it. */
  lemma PrefixTail(s: bytes, a: nat, b: nat)
    requires a <= b <= |s|
    ensures s[..b][a..] == s[a..b]
  {
    assert forall k | 0 <= k < b - a :: s[..b][a..][k] == s[a..b][k];
  }

  lemma TwoBytes(s: bytes, i: nat)
    requires i + 1 < |s|
    ensures s[i..i + 2] == [s[i], s[i + 1]]
  {
  }

  lemma OneByte(s: bytes, i: nat)
    requires i < |s|
    ensures s[i..i + 1] == [s[i]]
  {
  }

  lemma Rejoin(s: bytes, a: nat, b: nat, c: nat)
    requires a <= b <= c <= |s|
    ensures s[..a] + s[a..b] + s[b..c] == s[..c]
  {
  }

  ghost predicate StrictlyAscending(s: seq<nat>) {
    forall i, j | 0 <= i < j < |s| :: s[i] < s[j]
  }

  /** Two strictly ascending sequences with the same elements are equal. */
  lemma {:induction false} AscendingUnique(a: seq<nat>, b: seq<nat>)
    requires StrictlyAscending(a) && StrictlyAscending(b)
    requires forall x :: x in a <==> x in b
    ensures a == b
  {
    if a == [] {
      assert forall k | 0 <= k < |b| :: b[k] in b;
    } else {
      assert a[0] in b;
      var m, n := |a| - 1, |b| - 1;
      assert a[m] in b && b[n] in a;
      assert a[m] == b[n];
      forall x
        ensures x in a[..m] <==> x in b[..n]
      {
        if x in a[..m] {
          assert x in a && x < a[m];
          assert x in b;
        }
        if x in b[..n] {
          assert x in b && x < b[n];
          assert x in a;
        }
      }
      AscendingUnique(a[..m], b[..n]);
      assert a == a[..m] + [a[m]] && b == b[..n] + [b[n]];
    }
  }
}
