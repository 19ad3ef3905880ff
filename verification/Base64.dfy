/** Base 64 (section 4 of RFC 4648) decoded in place. */
module Base64 {
  import opened Bytes
  import opened Strings

  const PAD: Byte := 61

  predicate IsSkipped(c: Byte) {
    c == CR || c == LF || c == PAD
  }

  /**
    The value the decoder gives a character, or -1 for a bad one.  Everything from '/' on that is
    neither a letter nor a digit counts as '/'.
   */
  function SextetOf(c: Byte): (v: int)
    ensures -1 <= v < 64
  {
    if 65 <= c <= 90 then c as int - 65
    else if 97 <= c <= 122 then c as int - 71
    else if 48 <= c <= 57 then c as int + 4
    else if c == 43 then 62
    else if c >= 47 then 63
    else -1
  }

  type Sextet = v: int | 0 <= v < 64

  /** The values of the characters that are not skipped, up to the first bad one. */
  function Taken(s: seq<Byte>): (vs: seq<Sextet>)
    ensures |vs| <= |s|
  {
    if s == [] then []
    else if IsSkipped(s[0]) then Taken(s[1..])
    else if SextetOf(s[0]) < 0 then []
    else [SextetOf(s[0])] + Taken(s[1..])
  }

  /** There is a bad character. */
  predicate Rejected(s: seq<Byte>) {
    s != [] && if IsSkipped(s[0]) then Rejected(s[1..]) else SextetOf(s[0]) < 0 || Rejected(s[1..])
  }

  /** Three bytes from four values. */
  function Group(a: Sextet, b: Sextet, c: Sextet, d: Sextet): (r: seq<Byte>)
    ensures |r| == 3
  {
    [(a * 4 + b / 16) as Byte, (b % 16 * 16 + c / 4) as Byte, (c % 4 * 64 + d) as Byte]
  }

  /** The bytes that the values of a last, short group still determine. */
  function Remainder(vs: seq<Sextet>): seq<Byte>
    requires |vs| < 4
  {
    if |vs| == 3 then Group(vs[0], vs[1], vs[2], 0)[..2]
    else if |vs| == 2 then Group(vs[0], vs[1], 0, 0)[..1]
    else []
  }

  function BytesOf(vs: seq<Sextet>): (b: seq<Byte>)
    ensures |b| <= |vs|
  {
    if |vs| < 4 then Remainder(vs) else Group(vs[0], vs[1], vs[2], vs[3]) + BytesOf(vs[4..])
  }

  function Decode(s: seq<Byte>): Option<seq<Byte>> {
    if Rejected(s) then None else Some(BytesOf(Taken(s)))
  }

  // ---- the encoder of the standard ----

  /** Four values from three bytes. */
  function FourOf(x: Byte, y: Byte, z: Byte): (vs: seq<Sextet>)
    ensures |vs| == 4
  {
    [x as int / 4, x as int % 4 * 16 + y as int / 16, y as int % 16 * 4 + z as int / 64, z as int % 64]
  }

  function ValuesOf(b: seq<Byte>): (vs: seq<Sextet>)
    ensures |vs| == (|b| * 4 + 2) / 3
  {
    if |b| == 0 then []
    else if |b| == 1 then [b[0] as int / 4, b[0] as int % 4 * 16]
    else if |b| == 2 then
      [b[0] as int / 4, b[0] as int % 4 * 16 + b[1] as int / 16, b[1] as int % 16 * 4]
    else FourOf(b[0], b[1], b[2]) + ValuesOf(b[3..])
  }

  /** The alphabet A-Z, a-z, 0-9, +, /. */
  function CharOf(v: Sextet): (c: Byte)
    ensures SextetOf(c) == v && !IsSkipped(c)
  {
    (if v < 26 then v + 65 else if v < 52 then v + 71 else if v < 62 then v - 4 else if v == 62 then 43 else 47) as Byte
  }

  function Chars(vs: seq<Sextet>): (s: seq<Byte>)
    ensures |s| == |vs|
  {
    if vs == [] then [] else [CharOf(vs[0])] + Chars(vs[1..])
  }

  function Padding(n: nat): seq<Byte> {
    if n % 4 == 2 then [PAD, PAD] else if n % 4 == 3 then [PAD] else []
  }

  function Encode(b: seq<Byte>): seq<Byte> {
    Chars(ValuesOf(b)) + Padding(|ValuesOf(b)|)
  }

  /** The characters that carry values. */
  function Significant(s: seq<Byte>): seq<Byte> {
    if s == [] then []
    else if IsSkipped(s[0]) then Significant(s[1..])
    else [s[0]] + Significant(s[1..])
  }

  lemma {:induction false} OnlySignificant(s: seq<Byte>)
    ensures Taken(s) == Taken(Significant(s)) && Rejected(s) == Rejected(Significant(s))
  {
    if s != [] {
      OnlySignificant(s[1..]);
      if !IsSkipped(s[0]) {
        var t := Significant(s);
        assert t[0] == s[0] && t[1..] == Significant(s[1..]);
      }
    }
  }

  lemma {:induction false} TakenChars(vs: seq<Sextet>)
    ensures Taken(Chars(vs)) == vs && !Rejected(Chars(vs)) && Significant(Chars(vs)) == Chars(vs)
  {
    if vs != [] {
      TakenChars(vs[1..]);
      var s := Chars(vs);
      assert s[0] == CharOf(vs[0]) && s[1..] == Chars(vs[1..]);
      assert vs == [vs[0]] + vs[1..];
    }
  }

  lemma Parts(high: nat, low: nat, base: nat)
    requires low < base && (base == 4 || base == 16 || base == 64)
    ensures (high * base + low) / base == high && (high * base + low) % base == low
  {
  }

  lemma GroupOfThree(x: Byte, y: Byte, z: Byte)
    ensures var v := FourOf(x, y, z);
            Group(v[0], v[1], v[2], v[3]) == [x, y, z]
  {
  }

  lemma ValuesOfMore(b: seq<Byte>)
    requires |b| >= 3
    ensures var vs := ValuesOf(b);
            && |vs| >= 4 && vs[..4] == FourOf(b[0], b[1], b[2]) && vs[4..] == ValuesOf(b[3..])
            && Group(vs[0], vs[1], vs[2], vs[3]) == b[..3]
  {
    hide Group, FourOf;
    GroupOfThree(b[0], b[1], b[2]);
    assert b[..3] == [b[0], b[1], b[2]];
  }

  lemma GroupOfOne(x: Byte, p: Sextet, q: Sextet)
    requires p == x as int / 4 && q == x as int % 4 * 16
    ensures BytesOf([p, q]) == [x]
  {
  }

  lemma GroupOfTwo(x: Byte, y: Byte, p: Sextet, q: Sextet, r: Sextet)
    requires p == x as int / 4 && q == x as int % 4 * 16 + y as int / 16 && r == y as int % 16 * 4
    ensures BytesOf([p, q, r]) == [x, y]
  {
    Parts(x as int % 4, y as int / 16, 16);
    Parts(y as int % 16, 0, 4);
    assert q / 16 == x as int % 4 && q % 16 == y as int / 16 && r / 4 == y as int % 16;
  }

  lemma BytesOfOne(x: Byte)
    ensures BytesOf(ValuesOf([x])) == [x]
  {
    var vs := ValuesOf([x]);
    hide BytesOf;
    assert vs == [vs[0], vs[1]];
    GroupOfOne(x, vs[0], vs[1]);
  }

  lemma BytesOfTwo(x: Byte, y: Byte)
    ensures BytesOf(ValuesOf([x, y])) == [x, y]
  {
    var vs := ValuesOf([x, y]);
    hide BytesOf;
    assert vs == [vs[0], vs[1], vs[2]];
    GroupOfTwo(x, y, vs[0], vs[1], vs[2]);
  }

  lemma {:induction false} BytesOfValues(b: seq<Byte>)
    ensures BytesOf(ValuesOf(b)) == b
  {
    if |b| >= 3 {
      hide ValuesOf, Group, Remainder;
      ValuesOfMore(b);
      BytesOfValues(b[3..]);
      assert b == b[..3] + b[3..];
    } else if |b| == 2 {
      hide BytesOf, ValuesOf;
      BytesOfTwo(b[0], b[1]);
      assert b == [b[0], b[1]];
    } else if |b| == 1 {
      hide BytesOf, ValuesOf;
      BytesOfOne(b[0]);
      assert b == [b[0]];
    }
  }

  lemma {:induction false} SignificantAppend(s: seq<Byte>, t: seq<Byte>)
    ensures Significant(s + t) == Significant(s) + Significant(t)
  {
    hide IsSkipped;
    if s == [] {
      assert s + t == t;
    } else {
      SignificantAppend(s[1..], t);
      assert (s + t)[0] == s[0] && (s + t)[1..] == s[1..] + t;
    }
  }

  /**
    Any text whose significant characters are those of the encoding of `b` decodes to `b`: padding
    and line breaks may stand anywhere, or be missing.
   */
  lemma DecodeEncode(b: seq<Byte>, text: seq<Byte>)
    requires Significant(text) == Significant(Encode(b))
    ensures Decode(text) == Some(b)
  {
    var vs := ValuesOf(b);
    SignificantAppend(Chars(vs), Padding(|vs|));
    TakenChars(vs);
    assert [PAD, PAD][1..] == [PAD] && [PAD][1..] == [] && Significant([PAD]) == [];
    assert Significant(Padding(|vs|)) == [];
    assert Significant(Encode(b)) == Chars(vs) + [] == Chars(vs);
    OnlySignificant(text);
    BytesOfValues(b);
  }

  // ---- how far the decoder departs from the standard ----

  lemma {:induction false} RejectsExactly(s: seq<Byte>)
    ensures Rejected(s) <==> exists i :: 0 <= i < |s| && !IsSkipped(s[i]) && SextetOf(s[i]) < 0
  {
    if s != [] {
      var u := s[1..];
      RejectsExactly(u);
      assert forall i | 0 <= i < |u| :: u[i] == s[i + 1];
      assert forall i | 1 <= i < |s| :: s[i] == u[i - 1];
    }
  }

  // ---- the decoder of the standard ----

  /** The value of a character of the alphabet, or -1 for any other. */
  function StandardValue(c: Byte): (v: int)
    ensures -1 <= v < 64
  {
    if 65 <= c <= 90 then c as int - 65
    else if 97 <= c <= 122 then c as int - 71
    else if 48 <= c <= 57 then c as int + 4
    else if c == 43 then 62
    else if c == 47 then 63
    else -1
  }

  /** Two or three characters before the padding, which must not carry bits beyond their bytes. */
  function LastBytes(x: Byte, y: Byte, z: Byte): Option<seq<Byte>> {
    var a, b, c := StandardValue(x), StandardValue(y), StandardValue(z);
    if a < 0 || b < 0 then None
    else if z == PAD then
      if b % 16 == 0 then Some([(a * 4 + b / 16) as Byte]) else None
    else if c < 0 || c % 4 != 0 then None
    else Some([(a * 4 + b / 16) as Byte, (b % 16 * 16 + c / 4) as Byte])
  }

  /** Groups of four characters of the alphabet; only the last may be padded; nothing else is taken. */
  function StrictDecode(s: seq<Byte>): Option<seq<Byte>> {
    if s == [] then Some([])
    else if |s| < 4 then None
    else if |s| == 4 && s[3] == PAD then LastBytes(s[0], s[1], s[2])
    else
      var a, b, c, d := StandardValue(s[0]), StandardValue(s[1]), StandardValue(s[2]), StandardValue(s[3]);
      var rest := StrictDecode(s[4..]);
      if a < 0 || b < 0 || c < 0 || d < 0 || rest.None? then None else Some(Group(a, b, c, d) + rest.value)
  }

  lemma CharIsStandard(v: Sextet)
    ensures StandardValue(CharOf(v)) == v && CharOf(v) != PAD
  {
  }

  lemma StandardIsChar(c: Byte)
    requires StandardValue(c) >= 0
    ensures CharOf(StandardValue(c)) == c
  {
  }

  /** The values of the bytes of four values are these four again. */
  lemma FourOfGroup(a: Sextet, b: Sextet, c: Sextet, d: Sextet)
    ensures var g := Group(a, b, c, d);
            FourOf(g[0], g[1], g[2]) == [a, b, c, d]
  {
    FourOfSums(a, b, c, d, a * 4 + b / 16, b % 16 * 16 + c / 4, c % 4 * 64 + d);
  }

  lemma FourOfSums(a: Sextet, b: Sextet, c: Sextet, d: Sextet, x: nat, y: nat, z: nat)
    requires x == a * 4 + b / 16 && y == b % 16 * 16 + c / 4 && z == c % 4 * 64 + d
    ensures x / 4 == a && x % 4 * 16 + y / 16 == b && y % 16 * 4 + z / 64 == c && z % 64 == d
  {
    Parts(a, b / 16, 4);
    Parts(b % 16, c / 4, 16);
    Parts(c % 4, d, 64);
  }

  lemma CharsOfMore(a: Sextet, vs: seq<Sextet>)
    ensures Chars([a] + vs) == [CharOf(a)] + Chars(vs)
  {
    assert ([a] + vs)[1..] == vs;
  }

  lemma CharsOfFour(a: Sextet, b: Sextet, c: Sextet, d: Sextet, vs: seq<Sextet>)
    ensures Chars([a, b, c, d] + vs) == [CharOf(a), CharOf(b), CharOf(c), CharOf(d)] + Chars(vs)
  {
    hide Chars, CharOf;
    CharsOfMore(d, vs);
    CharsOfMore(c, [d] + vs);
    CharsOfMore(b, [c] + ([d] + vs));
    CharsOfMore(a, [b] + ([c] + ([d] + vs)));
    assert [a, b, c, d] + vs == [a] + ([b] + ([c] + ([d] + vs)));
  }

  lemma ValuesOfGroup(a: Sextet, b: Sextet, c: Sextet, d: Sextet, rest: seq<Byte>)
    ensures ValuesOf(Group(a, b, c, d) + rest) == [a, b, c, d] + ValuesOf(rest)
  {
    FourOfGroup(a, b, c, d);
    var g := Group(a, b, c, d);
    hide FourOf, Group;
    var all := g + rest;
    assert |g| == 3 && all[0] == g[0] && all[1] == g[1] && all[2] == g[2] && all[3..] == rest;
  }

  lemma PaddingMore(n: nat)
    ensures Padding(n + 4) == Padding(n)
  {
  }

  lemma EncodeMore(a: Sextet, b: Sextet, c: Sextet, d: Sextet, rest: seq<Byte>)
    ensures Encode(Group(a, b, c, d) + rest) == [CharOf(a), CharOf(b), CharOf(c), CharOf(d)] + Encode(rest)
  {
    hide CharOf, Chars, Group, ValuesOf, Padding;
    ValuesOfGroup(a, b, c, d, rest);
    CharsOfFour(a, b, c, d, ValuesOf(rest));
    PaddingMore(|ValuesOf(rest)|);
  }

  lemma EncodeOne(a: Sextet, b: Sextet)
    requires b % 16 == 0
    ensures Encode([(a * 4 + b / 16) as Byte]) == [CharOf(a), CharOf(b), PAD, PAD]
  {
    Parts(a, b / 16, 4);
    assert ValuesOf([(a * 4 + b / 16) as Byte]) == [a, b];
    hide CharOf, ValuesOf;
    CharsOfMore(a, [b]);
    CharsOfMore(b, []);
    assert [b] + [] == [b] && [a] + [b] == [a, b];
  }

  lemma EncodeTwo(a: Sextet, b: Sextet, c: Sextet)
    requires c % 4 == 0
    ensures Encode([(a * 4 + b / 16) as Byte, (b % 16 * 16 + c / 4) as Byte]) == [CharOf(a), CharOf(b), CharOf(c), PAD]
  {
    ValuesOfTwo(a, b, c);
    hide CharOf, ValuesOf;
    CharsOfMore(a, [b, c]);
    CharsOfMore(b, [c]);
    CharsOfMore(c, []);
    assert [c] + [] == [c] && [b] + [c] == [b, c] && [a] + [b, c] == [a, b, c];
  }

  lemma ValuesOfTwo(a: Sextet, b: Sextet, c: Sextet)
    requires c % 4 == 0
    ensures ValuesOf([(a * 4 + b / 16) as Byte, (b % 16 * 16 + c / 4) as Byte]) == [a, b, c]
  {
    var x, y := a * 4 + b / 16, b % 16 * 16 + c / 4;
    Parts(a, b / 16, 4);
    Parts(b % 16, c / 4, 16);
    assert x / 4 == a && x % 4 * 16 + y / 16 == b && y % 16 * 4 == c;
  }

  lemma LastIsEncoded(x: Byte, y: Byte, z: Byte)
    requires LastBytes(x, y, z).Some?
    ensures [x, y, z, PAD] == Encode(LastBytes(x, y, z).value)
  {
    hide Encode, StandardValue, CharOf;
    StandardIsChar(x);
    StandardIsChar(y);
    if z == PAD {
      EncodeOne(StandardValue(x), StandardValue(y));
    } else {
      StandardIsChar(z);
      EncodeTwo(StandardValue(x), StandardValue(y), StandardValue(z));
    }
  }

  /** What it decodes is the encoding of the result. */
  lemma {:induction false} StrictIsEncoded(s: seq<Byte>)
    requires StrictDecode(s).Some?
    ensures s == Encode(StrictDecode(s).value)
    decreases |s|
  {
    if s == [] {
      assert Encode([]) == [];
    } else {
      hide Group, Encode, StandardValue, CharOf, LastBytes;
      if |s| == 4 && s[3] == PAD {
        LastIsEncoded(s[0], s[1], s[2]);
        assert s == [s[0], s[1], s[2], s[3]];
      } else {
        var a, b, c, d := StandardValue(s[0]), StandardValue(s[1]), StandardValue(s[2]), StandardValue(s[3]);
        StandardIsChar(s[0]);
        StandardIsChar(s[1]);
        StandardIsChar(s[2]);
        StandardIsChar(s[3]);
        StrictIsEncoded(s[4..]);
        EncodeMore(a, b, c, d, StrictDecode(s[4..]).value);
        assert s == [s[0], s[1], s[2], s[3]] + s[4..];
      }
    }
  }

  lemma StrictMore(a: Sextet, b: Sextet, c: Sextet, d: Sextet, s: seq<Byte>, t: seq<Byte>)
    requires StrictDecode(s) == Some(t)
    ensures StrictDecode([CharOf(a), CharOf(b), CharOf(c), CharOf(d)] + s) == Some(Group(a, b, c, d) + t)
  {
    CharIsStandard(a);
    CharIsStandard(b);
    CharIsStandard(c);
    CharIsStandard(d);
    hide Group, StandardValue, CharOf, LastBytes;
    assert ([CharOf(a), CharOf(b), CharOf(c), CharOf(d)] + s)[4..] == s;
  }

  /** And every encoding is decoded to what was encoded. */
  lemma {:induction false} EncodedIsStrict(b: seq<Byte>)
    ensures StrictDecode(Encode(b)) == Some(b)
    decreases |b|
  {
    if |b| >= 3 {
      var v := FourOf(b[0], b[1], b[2]);
      GroupOfThree(b[0], b[1], b[2]);
      EncodedIsStrict(b[3..]);
      hide Group, Encode, StrictDecode, FourOf, CharOf;
      assert b == [b[0], b[1], b[2]] + b[3..];
      EncodeMore(v[0], v[1], v[2], v[3], b[3..]);
      StrictMore(v[0], v[1], v[2], v[3], Encode(b[3..]), b[3..]);
    } else if |b| == 2 {
      TwoIsStrict(b[0], b[1]);
      assert b == [b[0], b[1]];
    } else if |b| == 1 {
      OneIsStrict(b[0]);
      assert b == [b[0]];
    } else {
      assert Encode([]) == [];
    }
  }

  lemma OneIsStrict(x: Byte)
    ensures StrictDecode(Encode([x])) == Some([x])
  {
    var a: Sextet, b: Sextet := x as int / 4, x as int % 4 * 16;
    assert x == (a * 4 + b / 16) as Byte && b % 16 == 0;
    EncodeOne(a, b);
    CharIsStandard(a);
    CharIsStandard(b);
    hide Encode, CharOf;
    assert LastBytes(CharOf(a), CharOf(b), PAD) == Some([x]);
  }

  lemma TwoIsStrict(x: Byte, y: Byte)
    ensures StrictDecode(Encode([x, y])) == Some([x, y])
  {
    var a: Sextet, b: Sextet, c: Sextet := x as int / 4, x as int % 4 * 16 + y as int / 16, y as int % 16 * 4;
    assert x == (a * 4 + b / 16) as Byte && y == (b % 16 * 16 + c / 4) as Byte && c % 4 == 0;
    EncodeTwo(a, b, c);
    CharIsStandard(a);
    CharIsStandard(b);
    CharIsStandard(c);
    hide Encode, CharOf, StandardValue;
    assert LastBytes(CharOf(a), CharOf(b), CharOf(c)) == Some([x, y]);
  }

  /** The decoder of the standard takes exactly the encodings, each for what it encodes. */
  lemma StrictExactly(s: seq<Byte>, b: seq<Byte>)
    ensures StrictDecode(s) == Some(b) <==> s == Encode(b)
  {
    hide StrictDecode, Encode;
    if StrictDecode(s) == Some(b) {
      StrictIsEncoded(s);
    }
    EncodedIsStrict(b);
  }

  /**
    The server's decoder agrees with it exactly on the texts the standard's takes, and on those it
    rejects itself; all others, with characters too many, too few or out of place, it takes and the
    standard's does not.
   */
  lemma AgreesWithStandard(s: seq<Byte>)
    ensures Decode(s) == StrictDecode(s) <==> StrictDecode(s).Some? || Rejected(s)
  {
    hide StrictDecode, Encode, Rejected;
    if StrictDecode(s).Some? {
      StrictIsEncoded(s);
      DecodeEncode(StrictDecode(s).value, s);
    }
  }

  // ---- the decoder in place ----

  /** The bytes of the complete groups. */
  function Complete(vs: seq<Sextet>): (b: seq<Byte>)
    ensures |b| == |vs| / 4 * 3
  {
    if |vs| < 4 then [] else Group(vs[0], vs[1], vs[2], vs[3]) + Complete(vs[4..])
  }

  /** The values after the last complete group. */
  function Pending(vs: seq<Sextet>): (p: seq<Sextet>)
    ensures |p| == |vs| % 4
  {
    if |vs| < 4 then vs else Pending(vs[4..])
  }

  /** The number that the pending values spell. */
  function Number(p: seq<Sextet>): nat {
    if p == [] then 0 else 64 * Number(p[..|p| - 1]) + p[|p| - 1]
  }

  lemma {:induction false} OneMore(vs: seq<Sextet>, v: Sextet)
    ensures var p := Pending(vs);
            if |p| < 3 then
              Complete(vs + [v]) == Complete(vs) && Pending(vs + [v]) == p + [v]
            else
              Complete(vs + [v]) == Complete(vs) + Group(p[0], p[1], p[2], v) && Pending(vs + [v]) == []
  {
    var ws := vs + [v];
    if |vs| >= 4 {
      OneMore(vs[4..], v);
      assert ws[4..] == vs[4..] + [v];
    } else if |vs| == 3 {
      assert ws[4..] == [];
    }
  }

  lemma {:induction false} CompletePending(vs: seq<Sextet>)
    ensures BytesOf(vs) == Complete(vs) + Remainder(Pending(vs))
  {
    if |vs| >= 4 {
      CompletePending(vs[4..]);
      Associate(Group(vs[0], vs[1], vs[2], vs[3]), Complete(vs[4..]), Remainder(Pending(vs[4..])));
    }
  }

  // The shifts and masks of the decoder pick the bytes of a group out of its number.

  lemma Div4(q: nat, r: nat)
    requires r < 4
    ensures (4 * q + r) / 4 == q
  {
  }

  lemma Div16(q: nat, r: nat)
    requires r < 16
    ensures (16 * q + r) / 16 == q
  {
  }

  lemma Div256(q: nat, r: nat)
    requires r < 256
    ensures (256 * q + r) / 256 == q && (256 * q + r) % 256 == r
  {
  }

  /** Three bytes can be shifted and masked out of the number they make. */
  lemma PickBytes(p: nat, q: nat, r: nat)
    requires p < 256 && q < 256 && r < 256
    ensures var x := 256 * (256 * p + q) + r;
            x / 65536 % 256 == p && x / 256 % 256 == q && x % 256 == r
  {
    var x := 256 * (256 * p + q) + r;
    Div256(256 * p + q, r);
    Div256(p, q);
    assert x == 65536 * p + (256 * q + r) && x / 65536 == p;
  }

  lemma GroupOfNumber(a: Sextet, b: Sextet, c: Sextet, d: Sextet)
    ensures var x := 64 * (64 * (64 * a as int + b) + c) + d;
            Group(a, b, c, d) == [(x / 65536 % 256) as Byte, (x / 256 % 256) as Byte, (x % 256) as Byte]
  {
    var p: nat, q: nat, r: nat := a * 4 + b / 16, b % 16 * 16 + c / 4, c % 4 * 64 + d;
    assert b == 16 * (b / 16) + b % 16 && c == 4 * (c / 4) + c % 4;
    assert 64 * (64 * (64 * a as int + b) + c) + d == 256 * (256 * p + q) + r;
    PickBytes(p, q, r);
  }

  lemma RemainderOfThree(a: Sextet, b: Sextet, c: Sextet)
    ensures var x := 64 * (64 * a as int + b) + c;
            Group(a, b, c, 0)[..2] == [(x / 1024 % 256) as Byte, (x / 4 % 256) as Byte]
  {
    var p: nat, q: nat := a * 4 + b / 16, b % 16 * 16 + c / 4;
    var x: nat := 64 * (64 * a as int + b) + c;
    assert b == 16 * (b / 16) + b % 16 && c == 4 * (c / 4) + c % 4;
    assert x == 4 * (256 * p + q) + c % 4;
    Div4(256 * p + q, c % 4);
    Div256(p, q);
    assert x == 1024 * p + (4 * q + c % 4) && x / 1024 == p && p % 256 == p;
  }

  lemma RemainderOfTwo(a: Sextet, b: Sextet)
    ensures var x := 64 * a as int + b; Group(a, b, 0, 0)[..1] == [(x / 16 % 256) as Byte]
  {
    var p: nat := a * 4 + b / 16;
    assert 64 * a as int + b == 16 * p + b % 16;
    Div16(p, b % 16);
    assert p % 256 == p;
  }

  lemma NumberOf(p: seq<Sextet>)
    requires 2 <= |p| < 4
    ensures Number(p[..2]) == 64 * p[0] as int + p[1]
    ensures |p| == 3 ==> Number(p) == 64 * (64 * p[0] as int + p[1]) + p[2]
  {
    var q := p[..2];
    assert q[..1] == [p[0]] && [p[0]][..0] == [];
    assert Number([p[0]]) == p[0] && Number(q) == 64 * Number(q[..1]) + q[1];
  }

  /** Where the in-place decoder stands in `t`: `vs` are the values read so far. */
  ghost predicate Reading(t: seq<Byte>, i: nat, vs: seq<Sextet>) {
    && |vs| <= i <= |t|
    && Taken(t) == vs + Taken(t[i..]) && Rejected(t) == Rejected(t[i..])
  }

  lemma ReadingStarts(t: seq<Byte>)
    ensures Reading(t, 0, [])
  {
    assert t[0..] == t && [] + Taken(t) == Taken(t);
  }

  lemma ReadingSkips(t: seq<Byte>, i: nat, vs: seq<Sextet>)
    requires Reading(t, i, vs) && i < |t| && IsSkipped(t[i])
    ensures Reading(t, i + 1, vs)
  {
    assert t[i..][1..] == t[i + 1..];
  }

  lemma ReadingRejects(t: seq<Byte>, i: nat, vs: seq<Sextet>)
    requires Reading(t, i, vs) && i < |t| && !IsSkipped(t[i]) && SextetOf(t[i]) < 0
    ensures Rejected(t) && Taken(t) == vs
  {
    assert Taken(t[i..]) == [] && vs + [] == vs;
  }

  lemma ReadingTakes(t: seq<Byte>, i: nat, vs: seq<Sextet>)
    requires Reading(t, i, vs) && i < |t| && !IsSkipped(t[i]) && SextetOf(t[i]) >= 0
    ensures Reading(t, i + 1, vs + [SextetOf(t[i])])
  {
    var v, u := SextetOf(t[i]), t[i + 1..];
    assert t[i..][1..] == u;
    assert Taken(t[i..]) == [v] + Taken(u) && Rejected(t[i..]) == Rejected(u);
    hide Taken, Rejected;
    assert vs + ([v] + Taken(u)) == (vs + [v]) + Taken(u);
  }

  lemma ReadingEnds(t: seq<Byte>, vs: seq<Sextet>)
    requires Reading(t, |t|, vs)
    ensures Decode(t) == Some(Complete(vs) + Remainder(Pending(vs)))
    ensures |Complete(vs)| + |Remainder(Pending(vs))| <= |t|
  {
    assert t[|t|..] == [] && vs + [] == vs;
    CompletePending(vs);
  }

  /** What decoding the string `t` at the start of `was` leaves in the buffer. */
  ghost predicate InPlace(t: seq<Byte>, was: seq<Byte>, now: seq<Byte>, r: nat) {
    match Decode(t)
    case None =>
      var done := Complete(Taken(t));
      r == 0 && |done| <= |was| && now == Splice(was, 0, done)
    case Some(b) =>
      r == |b| < |was| && now == Splice(was, 0, b + [NUL])
  }

  /**
    Decodes the C string at the start of `data` in place.  A bad character makes the result 0 and
    leaves the groups completed before it in place; otherwise the decoded bytes stand at the start,
    a NUL behind them, and nothing further on has changed.
   */
  method DecodeB64(data: array<Byte>) returns (r: nat)
    requires NUL in data[..]
    modifies data
    ensures InPlace(CString(old(data[..])), old(data[..]), data[..], r)
  {
    ghost var t := CString(data[..]);
    ghost var w := data[|t|..];
    assert data[..] == t + w;
    r := DecodeString(data, t, w);
  }

  lemma NoValues()
    ensures Complete([]) == [] && Pending([]) == [] && Number(Pending([])) == 0 && Number([]) == 0
  {
  }

  lemma SpliceBehind(was: seq<Byte>, b: seq<Byte>, now: seq<Byte>, i: nat)
    requires |b| <= i < |was| && now == Splice(was, 0, b)
    ensures now[i] == was[i]
  {
  }

  lemma NumberMore(p: seq<Sextet>, v: Sextet)
    ensures Number(p + [v]) == 64 * Number(p) + v
  {
    assert (p + [v])[..|p|] == p;
  }

  lemma GroupOfPending(p: seq<Sextet>, v: Sextet)
    requires |p| == 3
    ensures var x := 64 * Number(p) + v;
            Group(p[0], p[1], p[2], v) == [(x / 65536 % 256) as Byte, (x / 256 % 256) as Byte, (x % 256) as Byte]
  {
    NumberOf(p);
    GroupOfNumber(p[0], p[1], p[2], v);
  }

  lemma RejectedInPlace(t: seq<Byte>, was: seq<Byte>, now: seq<Byte>)
    requires Rejected(t) && |Complete(Taken(t))| <= |was| && now == Splice(was, 0, Complete(Taken(t)))
    ensures InPlace(t, was, now, 0)
  {
  }

  lemma RemainderOfPending(p: seq<Sextet>)
    requires 2 <= |p| < 4
    ensures |p| == 3 ==> Remainder(p) == [(Number(p) / 1024 % 256) as Byte, (Number(p) / 4 % 256) as Byte]
    ensures |p| == 2 ==> Remainder(p) == [(Number(p) / 16 % 256) as Byte]
  {
    hide Number, Group;
    NumberOf(p);
    if |p| == 3 {
      RemainderOfThree(p[0], p[1], p[2]);
    } else {
      assert p[..2] == p;
      RemainderOfTwo(p[0], p[1]);
    }
  }

  lemma NoRemainder(p: seq<Sextet>)
    requires |p| < 2
    ensures Remainder(p) == []
  {
  }

  lemma AcceptedInPlace(t: seq<Byte>, was: seq<Byte>, now: seq<Byte>, b: seq<Byte>)
    requires Decode(t) == Some(b) && |b| < |was| && now == Splice(was, 0, b + [NUL])
    ensures InPlace(t, was, now, |b|)
  {
  }

  method DecodeString(data: array<Byte>, ghost t: seq<Byte>, ghost w: seq<Byte>) returns (r: nat)
    requires data[..] == t + w && w != [] && w[0] == NUL && forall k | 0 <= k < |t| :: t[k] != NUL
    modifies data
    ensures InPlace(t, t + w, data[..], r)
  {
    hide InPlace, Reading, Complete, Splice, Number, Group, Remainder, Pending, SextetOf;
    var i, validCount, converted := 0, 0, 0;
    ghost var vs: seq<Sextet>, was := [], t + w;
    ReadingStarts(t);
    NoValues();
    SpliceNothing(was, 0);
    r := 0;
    while data[i] != NUL
      invariant Reading(t, i, vs) && |vs| <= i <= |t| < data.Length
      invariant validCount == |vs| && r == |Complete(vs)| && converted == Number(Pending(vs))
      invariant data[..] == Splice(was, 0, Complete(vs))
      decreases |t| - i
    {
      SpliceBehind(was, Complete(vs), data[..], i);
      var c := data[i];
      if IsSkipped(c) {
        ReadingSkips(t, i, vs);
        i := i + 1;
        continue;
      }
      var value := SextetOf(c);
      if value < 0 {
        ReadingRejects(t, i, vs);
        RejectedInPlace(t, was, data[..]);
        return 0;
      }
      ReadingTakes(t, i, vs);
      i := i + 1;
      validCount := validCount + 1;
      converted := 64 * converted + value;
      ghost var p := Pending(vs);
      OneMore(vs, value);
      NumberMore(p, value);
      if validCount % 4 == 0 {
        GroupOfPending(p, value);
        var b := [(converted / 65536 % 256) as Byte, (converted / 256 % 256) as Byte, (converted % 256) as Byte];
        SpliceTwice(was, 0, Complete(vs), b);
        Store(data, r, b);
        r := r + 3;
        converted := 0;
      }
      vs := vs + [value];
    }
    SpliceBehind(was, Complete(vs), data[..], i);
    ReadingEnds(t, vs);
    ghost var p := Pending(vs);
    var rest: seq<Byte> := [];
    if validCount % 4 == 3 {
      RemainderOfPending(p);
      rest := [(converted / 1024 % 256) as Byte, (converted / 4 % 256) as Byte];
    } else if validCount % 4 == 2 {
      RemainderOfPending(p);
      rest := [(converted / 16 % 256) as Byte];
    } else {
      NoRemainder(p);
    }
    ghost var b := Complete(vs) + rest;
    SpliceTwice(was, 0, Complete(vs), rest);
    Store(data, r, rest);
    r := r + |rest|;
    SpliceTwice(was, 0, b, [NUL]);
    Store(data, r, [NUL]);
    AcceptedInPlace(t, was, data[..], b);
  }
}
