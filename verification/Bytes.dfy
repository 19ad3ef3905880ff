/** Octets, octet strings, and the handful of ASCII constants that the server compares against. */
module Bytes {
  newtype Byte = b: int | 0 <= b < 256

  const NUL: Byte := 0
  const CR: Byte := 13
  const LF: Byte := 10
  const CRLF: seq<Byte> := [CR, LF]
  const SPACE: Byte := 32
  const PERCENT: Byte := 37

  datatype Option<+T> = None | Some(value: T)

  /** A text in ASCII. */
  function Ascii(s: string): (r: seq<Byte>)
    requires forall k | 0 <= k < |s| :: s[k] < 128 as char
    ensures |r| == |s| && forall k | 0 <= k < |s| :: r[k] as int == s[k] as int
  {
    seq(|s|, k requires 0 <= k < |s| => (s[k] as int) as Byte)
  }

  /** `pat` occurs in `s` at position `i`. */
  predicate At(s: seq<Byte>, i: nat, pat: seq<Byte>) {
    i + |pat| <= |s| && s[i..i + |pat|] == pat
  }

  /** All blocks joined in order. */
  function Join(blocks: seq<seq<Byte>>): seq<Byte> {
    if blocks == [] then [] else blocks[0] + Join(blocks[1..])
  }

  lemma {:induction false} JoinAppend(a: seq<seq<Byte>>, b: seq<seq<Byte>>)
    ensures Join(a + b) == Join(a) + Join(b)
  {
    if a == [] {
      assert a + b == b;
    } else {
      var c := a + b;
      assert c[0] == a[0] && c[1..] == a[1..] + b;
      JoinAppend(a[1..], b);
      calc {
        Join(c);
        a[0] + Join(c[1..]);
        a[0] + (Join(a[1..]) + Join(b));
        (a[0] + Join(a[1..])) + Join(b);
      }
    }
  }

  lemma Associate(a: seq<Byte>, b: seq<Byte>, c: seq<Byte>)
    ensures a + (b + c) == (a + b) + c
  {
  }

  lemma SliceOfSlice(s: seq<Byte>, a: nat, b: nat, i: nat, j: nat)
    requires a <= b <= |s| && i <= j <= b - a
    ensures s[a..b][i..j] == s[a + i..a + j]
  {
    var l, r := s[a..b][i..j], s[a + i..a + j];
    assert forall k | 0 <= k < |l| :: l[k] == s[a + i + k] == r[k];
  }

  /** `b` with the bytes from position `i` on overwritten by `v`. */
  function Splice(b: seq<Byte>, i: nat, v: seq<Byte>): (r: seq<Byte>)
    requires i + |v| <= |b|
    ensures |r| == |b|
  {
    b[..i] + v + b[i + |v|..]
  }

  lemma SpliceAt(b: seq<Byte>, i: nat, v: seq<Byte>, k: nat)
    requires i + |v| <= |b| && k < |b|
    ensures Splice(b, i, v)[k] == if i <= k < i + |v| then v[k - i] else b[k]
  {
  }

  lemma SpliceNothing(b: seq<Byte>, i: nat)
    requires i <= |b|
    ensures Splice(b, i, []) == b
  {
    assert b[..i] + [] + b[i..] == b;
  }

  lemma SpliceTwice(b: seq<Byte>, i: nat, v: seq<Byte>, w: seq<Byte>)
    requires i + |v| + |w| <= |b|
    ensures Splice(Splice(b, i, v), i + |v|, w) == Splice(b, i, v + w)
  {
    var l, r := Splice(Splice(b, i, v), i + |v|, w), Splice(b, i, v + w);
    assert forall k | 0 <= k < |b| :: l[k] == r[k];
  }

  /** memmove: the source bytes are all read before any is written. */
  method Move(a: array<Byte>, dst: nat, src: nat, n: nat)
    requires dst + n <= a.Length && src + n <= a.Length
    modifies a
    ensures a[..] == Splice(old(a[..]), dst, old(a[src..src + n]))
  {
    forall k | 0 <= k < n {
      a[dst + k] := a[src + k];
    }
  }

  /** memcpy from a value into a buffer. */
  method Store(a: array<Byte>, dst: nat, data: seq<Byte>)
    requires dst + |data| <= a.Length
    modifies a
    ensures a[..] == Splice(old(a[..]), dst, data)
  {
    forall k | 0 <= k < |data| {
      a[dst + k] := data[k];
    }
  }
}
