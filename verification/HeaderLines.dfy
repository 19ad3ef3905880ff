/** What the lines of a head are worth, in the words of those who write them. */
module HeaderLines {
  import opened Bytes
  import opened Framing
  import opened Spelling
  import opened Strings

  // ---- numbers ----

  /** A number as it is written. */
  function Numeral(n: nat): (s: seq<Byte>)
    ensures s != []
  {
    if n < 10 then [Ascii(DIGITS)[n]] else Numeral(n / 10) + [Ascii(DIGITS)[n % 10]]
  }

  function Spaces(n: nat): (s: seq<Byte>)
    ensures |s| == n
  {
    seq(n, k => SPACE)
  }

  predicate AllDigits(s: seq<Byte>) {
    forall k | 0 <= k < |s| :: IsDigit(s[k])
  }

  lemma DigitSpelled(d: nat)
    requires d < 10
    ensures Ascii(DIGITS)[d] == (48 + d) as Byte
  {
  }

  lemma {:induction false} OneMoreDigit(acc: nat, s: seq<Byte>, c: Byte)
    requires AllDigits(s) && IsDigit(c)
    ensures Digits(acc, s + [c]) == 10 * Digits(acc, s) + (c as int - 48)
    decreases |s|
  {
    if s == [] {
      assert s + [c] == [c] && [c][1..] == [];
    } else {
      assert (s + [c])[1..] == s[1..] + [c];
      OneMoreDigit(10 * acc + (s[0] as int - 48), s[1..], c);
    }
  }

  lemma {:induction false} NumeralReads(n: nat)
    ensures AllDigits(Numeral(n)) && Digits(0, Numeral(n)) == n
  {
    if n < 10 {
      DigitSpelled(n);
      assert Numeral(n)[1..] == [];
    } else {
      var q, d := n / 10, n % 10;
      NumeralReads(q);
      DigitSpelled(d);
      OneMoreDigit(0, Numeral(q), Ascii(DIGITS)[d]);
      hide Digits, Ascii;
    }
  }

  lemma {:induction false} DigitsStop(acc: nat, s: seq<Byte>, t: seq<Byte>)
    requires AllDigits(s) && (t == [] || !IsDigit(t[0]))
    ensures Digits(acc, s + t) == Digits(acc, s)
    decreases |s|
  {
    if s == [] {
      assert s + t == t;
    } else {
      assert (s + t)[1..] == s[1..] + t;
      DigitsStop(10 * acc + (s[0] as int - 48), s[1..], t);
    }
  }

  /** A numeral is read as its number, behind any number of spaces and before anything that is not a digit. */
  lemma {:induction false} NumeralIsRead(spaces: nat, n: nat, rest: seq<Byte>)
    requires rest == [] || !IsDigit(rest[0])
    ensures Atol(Spaces(spaces) + (Numeral(n) + rest)) == n
    decreases spaces
  {
    hide Numeral;
    var s := Numeral(n) + rest;
    if spaces == 0 {
      NumeralReads(n);
      DigitsStop(0, Numeral(n), rest);
      assert Spaces(0) + s == s && IsDigit(s[0]);
      hide Digits;
    } else {
      NumeralIsRead(spaces - 1, n, rest);
      assert (Spaces(spaces) + s)[1..] == Spaces(spaces - 1) + s;
    }
  }

  // ---- the first line ----

  /** The first line settles method and target, and nothing else is a first line. */
  lemma FirstLineMeans(line: seq<Byte>, target: seq<Byte>)
    ensures line == Ascii("GET ") + target ==>
              Acceptable(NO_HEAD, line) && Interpret(NO_HEAD, line) == Head(Get, target, -1, false, 0, 0, [])
    ensures line == Ascii("POST ") + target ==>
              Acceptable(NO_HEAD, line) && Interpret(NO_HEAD, line) == Head(Post, target, -1, false, 0, 0, [])
    ensures Acceptable(NO_HEAD, line) <==> Ascii("GET ") <= line || Ascii("POST ") <= line
  {
    MethodsSpelled();
    assert Ascii("GET ")[0] == 71 && Ascii("POST ")[0] == 80;
    hide StartsLike, Atol, Contains, RangeOf, ValueOf;
  }

  // ---- the other lines ----

  /** A line that starts like one name does not start like another that differs at some letter. */
  lemma Differ(line: seq<Byte>, name: seq<Byte>, other: seq<Byte>, k: nat)
    requires StartsLike(line, name) && NUL !in line && NUL !in name && NUL !in other
    requires k < |name| && k < |other| && Upper(name[k]) != Upper(other[k])
    ensures !StartsLike(line, other)
  {
    CStringAt(line, |line|);
    CStringAt(name, |name|);
    CStringAt(other, |other|);
    assert CString(line) == line && CString(name) == name && CString(other) == other;
    hide Upper;
  }

  lemma LengthLike(line: seq<Byte>)
    requires NUL !in line && Spelt(line, "Content-Length:")
    ensures StartsLike(line, CONTENT_LENGTH)
  {
    LinesSpelled();
    SpeltIsLike(line, "Content-Length:");
    hide StartsLike, Spelt, Ascii;
  }

  lemma ConnectionLike(line: seq<Byte>)
    requires NUL !in line && Spelt(line, "Connection:")
    ensures StartsLike(line, CONNECTION)
  {
    LinesSpelled();
    SpeltIsLike(line, "Connection:");
    hide StartsLike, Spelt, Ascii;
  }

  lemma CookieLike(line: seq<Byte>)
    requires NUL !in line && Spelt(line, "Cookie:")
    ensures StartsLike(line, COOKIE)
  {
    LinesSpelled();
    SpeltIsLike(line, "Cookie:");
    hide StartsLike, Spelt, Ascii;
  }

  lemma TokenLike(line: seq<Byte>)
    requires NUL !in line && Spelt(line, "X-Auth-Token:")
    ensures StartsLike(line, AUTH_TOKEN)
  {
    LinesSpelled();
    SpeltIsLike(line, "X-Auth-Token:");
    hide StartsLike, Spelt, Ascii;
  }

  /** The length of the body is the number that the line gives. */
  lemma ContentLengthMeans(h: Head, line: seq<Byte>, spaces: nat, n: nat)
    requires h.verb != NoMethod && NUL !in line && Spelt(line, "Content-Length:")
    requires line[15..] == Spaces(spaces) + Numeral(n)
    ensures Interpret(h, line) == h.(contentLength := n)
  {
    LengthLike(line);
    NumeralIsRead(spaces, n, []);
    assert Numeral(n) + [] == Numeral(n);
    hide StartsLike, Atol, Contains, RangeOf, ValueOf, Spelt;
  }

  predicate SaysKeepAlive(line: seq<Byte>) {
    Contains(line, Ascii("keep-alive")) || Contains(line, Ascii("Keep-Alive"))
  }

  /** The connection is kept exactly if the line says so. */
  lemma ConnectionMeans(h: Head, line: seq<Byte>)
    requires h.verb != NoMethod && NUL !in line && Spelt(line, "Connection:")
    ensures Interpret(h, line) == h.(keepAlive := SaysKeepAlive(line))
  {
    ConnectionLike(line);
    IsConnection(line);
    ConnectionLine(h, line);
    SaysSo(line);
    hide StartsLike, Spelt, Contains, SaysKeepAlive, Interpret, CString;
  }

  lemma IsConnection(line: seq<Byte>)
    requires NUL !in line && StartsLike(line, CONNECTION)
    ensures !StartsLike(line, CONTENT_LENGTH) && CString(line) == line
  {
    hide StartsLike;
    CStringAt(line, |line|);
    Differ(line, CONNECTION, CONTENT_LENGTH, 3);
  }

  lemma SaysSo(line: seq<Byte>)
    ensures SaysKeepAlive(line) <==> Contains(line, KEEP_ALIVE) || Contains(line, KEEP_ALIVE_UPPER)
  {
    ValuesSpelled();
    hide Contains;
  }

  lemma ConnectionLine(h: Head, line: seq<Byte>)
    requires h.verb != NoMethod && CString(line) == line
    requires StartsLike(line, CONNECTION) && !StartsLike(line, CONTENT_LENGTH)
    ensures Interpret(h, line) == h.(keepAlive := Contains(line, KEEP_ALIVE) || Contains(line, KEEP_ALIVE_UPPER))
  {
    hide StartsLike, Atol, Contains, RangeOf, ValueOf, CString;
  }

  /** It does with the one value, and does not with the other. */
  lemma KeepAliveOrClose(line: seq<Byte>, spaces: nat)
    requires Spelt(line, "Connection:")
    ensures line[11..] == Spaces(spaces) + Ascii("keep-alive") ==> SaysKeepAlive(line)
    ensures line[11..] == Spaces(spaces) + Ascii("close") ==> !SaysKeepAlive(line)
  {
    var keep, close := Ascii("keep-alive"), Ascii("close");
    if line[11..] == Spaces(spaces) + keep {
      var i := 11 + spaces;
      assert line[i..i + 10] == line[11..][spaces..spaces + 10] == keep;
      assert At(line, i, keep);
    }
    if line[11..] == Spaces(spaces) + close {
      NoK(line, spaces);
      forall i | 0 <= i <= |line|
        ensures !At(line, i, keep) && !At(line, i, Ascii("Keep-Alive"))
      {
        if i + 10 <= |line| {
          var s := line[i..i + 10];
          assert s[0] == line[i];
          assert keep[0] == 107 && Ascii("Keep-Alive")[0] == 75;
        }
      }
    }
  }

  /** There is no k in "Connection: close". */
  lemma NoK(line: seq<Byte>, spaces: nat)
    requires Spelt(line, "Connection:") && line[11..] == Spaces(spaces) + Ascii("close")
    ensures forall i | 0 <= i < |line| :: line[i] != 107 && line[i] != 75
  {
    forall i | 0 <= i < |line|
      ensures line[i] != 107 && line[i] != 75
    {
      if i < 11 {
        NoKInName(line[i], i);
      } else {
        assert line[i] == line[11..][i - 11];
      }
    }
  }

  lemma NoKInName(c: Byte, i: nat)
    requires i < 11 && Reads(c, "Connection:"[i])
    ensures c != 107 && c != 75
  {
    assert "Connection:"[i] != 'k' && "Connection:"[i] != 'K';
    if c == 107 || c == 75 {
      KReads(c, "Connection:"[i]);
    }
  }

  lemma KReads(c: Byte, d: char)
    requires Reads(c, d) && (c == 107 || c == 75) && d < 128 as char
    ensures d == 'k' || d == 'K'
  {
    UpperExactly(c, d);
    hide Reads;
  }

  /** The credentials of a request are what its last line for them gives, as far as it fits. */
  lemma CookieMeans(h: Head, line: seq<Byte>)
    requires h.verb != NoMethod && NUL !in line && (Spelt(line, "Cookie:") || Spelt(line, "X-Auth-Token:"))
    ensures var v := ValueOf(line, false);
            Interpret(h, line) == h.(token := if |v| > 126 then v[..126] else v)
  {
    if Spelt(line, "Cookie:") {
      CookieLike(line);
      IsCookie(line);
    } else {
      TokenLike(line);
      IsToken(line);
    }
    NoNulInValue(line, false);
    hide StartsLike, Atol, Contains, RangeOf, ValueOf, Spelt, CString;
  }

  lemma IsCookie(line: seq<Byte>)
    requires NUL !in line && StartsLike(line, COOKIE)
    ensures !StartsLike(line, CONTENT_LENGTH) && !StartsLike(line, CONNECTION) && !StartsLike(line, RANGE)
  {
    hide StartsLike;
    Differ(line, COOKIE, CONTENT_LENGTH, 2);
    Differ(line, COOKIE, CONNECTION, 2);
    Differ(line, COOKIE, RANGE, 0);
  }

  lemma IsToken(line: seq<Byte>)
    requires NUL !in line && StartsLike(line, AUTH_TOKEN)
    ensures !StartsLike(line, CONTENT_LENGTH) && !StartsLike(line, CONNECTION) && !StartsLike(line, RANGE)
  {
    hide StartsLike;
    Differ(line, AUTH_TOKEN, CONTENT_LENGTH, 0);
    Differ(line, AUTH_TOKEN, CONNECTION, 0);
    Differ(line, AUTH_TOKEN, RANGE, 0);
  }

  /** The value of such a line is what stands behind the colon and the spaces. */
  lemma {:induction false} ValueMeans(name: seq<Byte>, spaces: nat, v: seq<Byte>)
    requires COLON !in name && (v == [] || v[0] != SPACE)
    ensures ValueOf(name + ([COLON] + (Spaces(spaces) + v)), false) == v
    decreases |name|
  {
    var s := name + ([COLON] + (Spaces(spaces) + v));
    if name == [] {
      assert s[1..] == Spaces(spaces) + v;
      BehindSpaces(spaces, v);
    } else {
      assert s[1..] == name[1..] + ([COLON] + (Spaces(spaces) + v)) && s[0] == name[0];
      ValueMeans(name[1..], spaces, v);
    }
  }

  lemma {:induction false} BehindSpaces(spaces: nat, v: seq<Byte>)
    requires v == [] || v[0] != SPACE
    ensures ValueOf(Spaces(spaces) + v, true) == v
    decreases spaces
  {
    var s := Spaces(spaces) + v;
    if spaces == 0 {
      assert s == v;
    } else {
      assert s[1..] == Spaces(spaces - 1) + v;
      BehindSpaces(spaces - 1, v);
    }
  }

  lemma {:induction false} NoNulInValue(line: seq<Byte>, seen: bool)
    requires NUL !in line
    ensures NUL !in ValueOf(line, seen) && CString(ValueOf(line, seen)) == ValueOf(line, seen)
    decreases |line|
  {
    if line != [] && (!seen || line[0] == SPACE) {
      NoNulInValue(line[1..], !seen ==> line[0] == COLON);
    } else {
      CStringAt(line, |line|);
    }
  }

  // ---- which lines those are ----

  /** The lines a head is made of, and those the server knows and passes over. */
  const NAMES: seq<string> :=
    ["Content-Length:", "Connection:", "Range:", "X-Auth-Token:", "Cookie:",
     "Transfer-Encoding:", "Expect:", "If-Modified-Since:"]
  const PATTERNS: seq<seq<Byte>> :=
    [CONTENT_LENGTH, CONNECTION, RANGE, AUTH_TOKEN, COOKIE, TRANSFER_ENCODING, EXPECT, IF_MODIFIED_SINCE]

  lemma NameSpelled(k: nat)
    requires k < 8
    ensures |NAMES| == |PATTERNS| == 8 && Plain(NAMES[k]) && PATTERNS[k] == Ascii(NAMES[k])
  {
    NameIsPlain(k);
    hide Plain;
  }

  lemma NameIsPlain(k: nat)
    requires k < 8
    ensures |NAMES| == 8 && Plain(NAMES[k])
  {
  }

  lemma NameIs(line: seq<Byte>, k: nat)
    requires k < 8 && NUL !in line
    ensures |NAMES| == |PATTERNS| == 8 && (StartsLike(line, PATTERNS[k]) <==> Spelt(line, NAMES[k]))
  {
    NameSpelled(k);
    SpeltIsLike(line, NAMES[k]);
    hide StartsLike, Spelt, Ascii;
  }

  lemma AllNames(line: seq<Byte>)
    requires NUL !in line
    ensures |NAMES| == |PATTERNS| == 8
    ensures forall k | 0 <= k < 8 :: StartsLike(line, PATTERNS[k]) <==> Spelt(line, NAMES[k])
  {
    hide StartsLike, Spelt;
    NameIs(line, 0);
    forall k | 0 <= k < 8
      ensures StartsLike(line, PATTERNS[k]) <==> Spelt(line, NAMES[k])
    {
      NameIs(line, k);
    }
  }

  /** A line under none of the first five names adds nothing to the head. */
  lemma OtherLinesSayNothing(h: Head, line: seq<Byte>)
    requires h.verb != NoMethod && NUL !in line && |NAMES| == 8
    requires forall k | 0 <= k < 5 :: !Spelt(line, NAMES[k])
    ensures Interpret(h, line) == h
  {
    hide StartsLike, Spelt, Atol, Contains, RangeOf, ValueOf;
    AllNames(line);
    assert forall k | 0 <= k < 5 :: !StartsLike(line, PATTERNS[k]);
    assert PATTERNS[0] == CONTENT_LENGTH && PATTERNS[1] == CONNECTION && PATTERNS[2] == RANGE;
    assert PATTERNS[3] == AUTH_TOKEN && PATTERNS[4] == COOKIE;
  }

  /** And a line under none of the eight goes to a handler that wants such lines. */
  lemma RecognizedExactly(line: seq<Byte>)
    requires NUL !in line
    ensures |NAMES| == 8 && (Recognized(line) <==> exists k :: 0 <= k < 8 && Spelt(line, NAMES[k]))
  {
    hide StartsLike, Spelt;
    AllNames(line);
    assert PATTERNS[0] == CONTENT_LENGTH && PATTERNS[1] == CONNECTION && PATTERNS[2] == RANGE;
    assert PATTERNS[3] == AUTH_TOKEN && PATTERNS[4] == COOKIE && PATTERNS[5] == TRANSFER_ENCODING;
    assert PATTERNS[6] == EXPECT && PATTERNS[7] == IF_MODIFIED_SINCE;
  }
}
