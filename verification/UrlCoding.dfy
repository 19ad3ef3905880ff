/** Percent-encoding (section 2.1 of RFC 3986) decoded in place. */
module UrlCoding {
  import opened Bytes
  import opened Strings

  /** The value of a hexadecimal digit of either case, or -1. */
  function HexValue(c: Byte): (v: int)
    ensures -1 <= v < 16
  {
    if 48 <= c <= 57 then c as int - 48
    else if 65 <= c <= 70 then c as int - 55
    else if 97 <= c <= 102 then c as int - 87
    else -1
  }

  /** The string "00112233445566778899AaBbCcDdEeFf": every digit at twice its value and once more behind. */
  function HexSetAt(i: nat): Byte
    requires i < 32
  {
    (if i < 20 then 48 + i / 2 else if i % 2 == 0 then 55 + i / 2 else 87 + i / 2) as Byte
  }

  const HEX_SET: seq<Byte> := seq(32, i requires 0 <= i < 32 => HexSetAt(i))

  method Hex2Int(c: Byte) returns (v: int)
    ensures v == HexValue(c)
  {
    var i := 0;
    while i < |HEX_SET|
      invariant i <= 32 && forall k | 0 <= k < i :: HexSetAt(k) != c
    {
      if c == HEX_SET[i] {
        return i / 2;
      }
      i := i + 1;
    }
    var k := if 97 <= c then 2 * HexValue(c) + 1 else 2 * HexValue(c);
    assert HexValue(c) >= 0 ==> HexSetAt(k) == c;
    return -1;
  }

  /** A percent sign followed by two hexadecimal digits. */
  predicate IsEscape(s: seq<Byte>) {
    |s| >= 3 && s[0] == PERCENT && HexValue(s[1]) >= 0 && HexValue(s[2]) >= 0
  }

  function Escaped(s: seq<Byte>): Byte
    requires IsEscape(s)
  {
    (16 * HexValue(s[1]) + HexValue(s[2])) as Byte
  }

  lemma EscapeIs(s: seq<Byte>, a: int, b: int)
    requires |s| >= 3 && s[0] == PERCENT && a == HexValue(s[1]) && b == HexValue(s[2])
    ensures IsEscape(s) <==> a >= 0 && b >= 0
    ensures IsEscape(s) ==> 0 <= 16 * a + b < 256 && Escaped(s) == (16 * a + b) as Byte
  {
  }

  lemma NoEscapeIs(s: seq<Byte>)
    requires |s| < 3 || s[0] != PERCENT
    ensures !IsEscape(s)
  {
  }

  /** Left to right, every escape becomes the byte it names, and every other byte stays. */
  function Decode(s: seq<Byte>): seq<Byte> {
    if s == [] then []
    else if IsEscape(s) then [Escaped(s)] + Decode(s[3..])
    else [s[0]] + Decode(s[1..])
  }

  function Escapes(s: seq<Byte>): nat {
    if s == [] then 0
    else if IsEscape(s) then 1 + Escapes(s[3..])
    else Escapes(s[1..])
  }

  lemma {:induction false} DecodedLength(s: seq<Byte>)
    ensures |Decode(s)| + 2 * Escapes(s) == |s|
  {
    if s != [] {
      DecodedLength(if IsEscape(s) then s[3..] else s[1..]);
    }
  }

  function Repeat(x: seq<Byte>, k: nat): seq<Byte> {
    if k == 0 then [] else x + Repeat(x, k - 1)
  }

  /** The last two bytes of the encoded string. */
  function LastTwo(t: seq<Byte>): seq<Byte> {
    if |t| >= 2 then t[|t| - 2..] else []
  }

  /** While `t` is being decoded: `d` is decoded, `u` is still to be read, `k` escapes have been met. */
  ghost predicate Decoding(t: seq<Byte>, d: seq<Byte>, u: seq<Byte>, k: nat) {
    && |d| + |u| + 2 * k == |t| && u == t[|t| - |u|..]
    && Decode(t) == d + Decode(u) && Escapes(t) == k + Escapes(u)
  }

  /** The buffer meanwhile: every escape so far has left a copy of the last two bytes behind. */
  ghost predicate Layout(last: seq<Byte>, d: seq<Byte>, u: seq<Byte>, k: nat, w: seq<Byte>, now: seq<Byte>) {
    now == d + u + (Repeat(last, k) + w)
  }

  lemma Starts(t: seq<Byte>, w: seq<Byte>)
    ensures Decoding(t, [], t, 0) && Layout(LastTwo(t), [], t, 0, w, t + w)
  {
    assert [] + t + ([] + w) == t + w && [] + Decode(t) == Decode(t);
  }

  lemma Keeps(t: seq<Byte>, d: seq<Byte>, u: seq<Byte>, k: nat)
    requires Decoding(t, d, u, k) && u != [] && !IsEscape(u)
    ensures Decoding(t, d + [u[0]], u[1..], k)
  {
    Associate(d, [u[0]], Decode(u[1..]));
    assert u[1..] == t[|t| - |u[1..]|..];
  }

  lemma LayoutKeeps(last: seq<Byte>, d: seq<Byte>, u: seq<Byte>, k: nat, w: seq<Byte>, now: seq<Byte>)
    requires Layout(last, d, u, k, w, now) && u != []
    ensures Layout(last, d + [u[0]], u[1..], k, w, now)
  {
    assert d + u == d + [u[0]] + u[1..];
  }

  lemma LayoutRead(last: seq<Byte>, d: seq<Byte>, u: seq<Byte>, k: nat, w: seq<Byte>, now: seq<Byte>, j: nat)
    requires Layout(last, d, u, k, w, now)
    ensures |now| >= |d| + |u| && (j < |u| ==> now[|d| + j] == u[j])
  {
  }

  lemma Takes(t: seq<Byte>, d: seq<Byte>, u: seq<Byte>, k: nat)
    requires Decoding(t, d, u, k) && IsEscape(u)
    ensures Decoding(t, d + [Escaped(u)], u[3..], k + 1) && u[|u| - 2..] == LastTwo(t)
  {
    Associate(d, [Escaped(u)], Decode(u[3..]));
    assert u[3..] == t[|t| - |u[3..]|..];
    assert u[|u| - 2..] == t[|t| - 2..];
  }

  lemma LayoutTakes(last: seq<Byte>, d: seq<Byte>, u: seq<Byte>, k: nat, w: seq<Byte>, now: seq<Byte>, c: Byte)
    requires Layout(last, d, u, k, w, now) && |u| >= 3 && last == u[|u| - 2..] && |now| >= |d| + |u|
    ensures var a := now[|d| := c];
            Layout(last, d + [c], u[3..], k + 1, w, Splice(a, |d| + 1, a[|d| + 3..|d| + |u|]))
  {
    var r := Repeat(last, k) + w;
    Shift(d, u, c, r, now[|d| := c]);
    Associate(last, Repeat(last, k), w);
  }

  /** The effect on the whole buffer of storing a decoded byte and closing the gap behind it. */
  lemma Shift(d: seq<Byte>, u: seq<Byte>, c: Byte, r: seq<Byte>, a: seq<Byte>)
    requires |u| >= 3 && a == (d + u + r)[|d| := c]
    ensures Splice(a, |d| + 1, a[|d| + 3..|d| + |u|]) == d + [c] + u[3..] + (u[|u| - 2..] + r)
  {
    var x, y := Splice(a, |d| + 1, a[|d| + 3..|d| + |u|]), d + [c] + u[3..] + (u[|u| - 2..] + r);
    assert |x| == |y|;
    forall k | 0 <= k < |x|
      ensures x[k] == y[k]
    {
      if |d| < k < |d| + |u| - 2 {
        assert x[k] == a[k + 2] == u[k + 2 - |d|];
      }
    }
  }

  /**
    Decodes the C string at the start of `url` in place and returns the decoded length.  No NUL is
    stored behind the result: up to the old terminator stands one copy of the string's last two
    bytes for every escape.
   */
  method URLDecode(url: array<Byte>) returns (i: nat)
    requires NUL in url[..]
    modifies url
    ensures var t := CString(old(url[..]));
            && i == |Decode(t)| == |t| - 2 * Escapes(t)
            && url[..] == Decode(t) + Repeat(LastTwo(t), Escapes(t)) + old(url[..])[|t|..]
  {
    var len := Length(url);
    ghost var t, w := CString(url[..]), url[len..];
    assert url[..] == t + w;
    i := DecodeString(url, len, t, w);
  }

  method DecodeString(url: array<Byte>, length: nat, ghost t: seq<Byte>, ghost w: seq<Byte>) returns (i: nat)
    requires url[..] == t + w && |t| == length && NUL !in t
    modifies url
    ensures i == |Decode(t)| == |t| - 2 * Escapes(t)
    ensures url[..] == Decode(t) + Repeat(LastTwo(t), Escapes(t)) + w
  {
    hide Decoding, Layout, Decode, Escapes, Repeat, HexValue, Splice, LastTwo, IsEscape, Escaped;
    ghost var d: seq<Byte>, u: seq<Byte>, k: nat := [], t, 0;
    var len := length;
    Starts(t, w);
    i := 0;
    while i < len && url[i] != NUL
      invariant i == |d| && len == |d| + |u| && len <= |t| <= url.Length
      invariant Decoding(t, d, u, k) && Layout(LastTwo(t), d, u, k, w, url[..])
      decreases len - i
    {
      ghost var last, now := LastTwo(t), url[..];
      LayoutRead(last, d, u, k, w, now, 0);
      var escape, c := false, url[i];
      if url[i] == PERCENT && i < len - 2 {
        LayoutRead(last, d, u, k, w, now, 1);
        LayoutRead(last, d, u, k, w, now, 2);
        var a := Hex2Int(url[i + 1]);
        var b := Hex2Int(url[i + 2]);
        if a >= 0 && b >= 0 {
          escape, c := true, (16 * a + b) as Byte;
        }
        EscapeIs(u, a, b);
      } else {
        NoEscapeIs(u);
      }
      if escape {
        Takes(t, d, u, k);
        LayoutTakes(last, d, u, k, w, now, c);
        url[i] := c;
        assert url[..] == now[i := c];
        Move(url, i + 1, i + 3, len - i - 3);
        u, k := u[3..], k + 1;
        len := len - 2;
      } else {
        Keeps(t, d, u, k);
        LayoutKeeps(last, d, u, k, w, now);
        u := u[1..];
      }
      d := d + [c];
      i := i + 1;
    }
    if u != [] {
      LayoutRead(LastTwo(t), d, u, k, w, url[..], 0);
    }
    Ends(t, d, u, k, w, url[..]);
  }

  lemma Ends(t: seq<Byte>, d: seq<Byte>, u: seq<Byte>, k: nat, w: seq<Byte>, now: seq<Byte>)
    requires Decoding(t, d, u, k) && Layout(LastTwo(t), d, u, k, w, now)
    requires NUL !in t && (u != [] ==> u[0] == NUL)
    ensures u == [] && d == Decode(t) && |d| == |t| - 2 * Escapes(t)
    ensures now == Decode(t) + Repeat(LastTwo(t), Escapes(t)) + w
  {
    assert NUL !in u;
    DecodedLength(t);
    assert d + [] == d;
    Associate(d, Repeat(LastTwo(t), k), w);
  }

  method Length(a: array<Byte>) returns (n: nat)
    requires NUL in a[..]
    ensures n == |CString(a[..])| < a.Length
  {
    n := 0;
    while a[n] != NUL
      invariant n < a.Length && forall k | 0 <= k < n :: a[k] != NUL
      invariant NUL in a[n..]
      decreases a.Length - n
    {
      n := n + 1;
    }
    CStringAt(a[..], n);
  }

  // ---- encoders and the decoder ----

  /** A percent-encoder: which bytes it leaves alone, and how it writes a digit. */
  datatype Encoder = Encoder(keeps: Byte -> bool, digit: nat -> Byte)

  ghost predicate Sound(e: Encoder) {
    !e.keeps(PERCENT) && forall v: nat | v < 16 :: HexValue(e.digit(v)) == v
  }

  function Encode(e: Encoder, s: seq<Byte>): seq<Byte> {
    if s == [] then []
    else (if e.keeps(s[0]) then [s[0]]
          else [PERCENT, e.digit(s[0] as int / 16), e.digit(s[0] as int % 16)]) + Encode(e, s[1..])
  }

  /** Whatever else an encoder escapes, decoding undoes it as long as the percent sign is escaped. */
  lemma {:induction false} DecodeEncode(e: Encoder, s: seq<Byte>)
    requires Sound(e)
    ensures Decode(Encode(e, s)) == s
  {
    if s != [] {
      var c, rest := s[0], Encode(e, s[1..]);
      var t := Encode(e, s);
      DecodeEncode(e, s[1..]);
      if e.keeps(c) {
        assert t == [c] + rest && t[1..] == rest;
      } else {
        var hi, lo := c as int / 16, c as int % 16;
        assert t == [PERCENT, e.digit(hi), e.digit(lo)] + rest && t[3..] == rest;
        assert HexValue(t[1]) == hi && HexValue(t[2]) == lo;
      }
      assert s == [c] + s[1..];
    }
  }

  /** A string is left as it is exactly when it holds no escape. */
  lemma {:induction false} DecodeIsIdentity(s: seq<Byte>)
    ensures Decode(s) == s <==> forall i | 0 <= i <= |s| :: !IsEscape(s[i..])
  {
    if s != [] {
      var u := s[1..];
      DecodeIsIdentity(u);
      assert forall i | 0 <= i <= |u| :: u[i..] == s[i + 1..];
      assert s[0..] == s;
      if IsEscape(s) {
        DecodedLength(s);
      } else {
        assert s == [s[0]] + u;
        if forall i | 0 <= i <= |u| :: !IsEscape(u[i..]) {
          forall i | 0 <= i <= |s|
            ensures !IsEscape(s[i..])
          {
            if i > 0 {
              assert s[i..] == u[i - 1..];
            }
          }
        } else {
          var i :| 0 <= i <= |u| && IsEscape(u[i..]);
          assert IsEscape(s[i + 1..]);
        }
      }
    }
  }
}
