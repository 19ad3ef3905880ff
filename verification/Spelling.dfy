/** The names, marks and sizes of the server as its users and its header files write them. */
module Spelling {
  import opened Bytes
  import opened Framing
  import opened Limits
  import opened RequestLine
  import opened Routing
  import opened SsiScanner
  import opened Strings
  import Base64
  import Chunked
  import UrlCoding

  const CAPITALS := "ABCDEFGHIJKLMNOPQRSTUVWXYZ"
  const SMALL := "abcdefghijklmnopqrstuvwxyz"

  // ---- letters ----

  /** A byte is this character or the other case of it. */
  predicate Reads(c: Byte, d: char) {
    || c as int == d as int
    || exists k | 0 <= k < 26 ::
         || (c as int == CAPITALS[k] as int && d == SMALL[k])
         || (c as int == SMALL[k] as int && d == CAPITALS[k])
  }

  lemma Letters(k: nat)
    requires k < 26
    ensures CAPITALS[k] as int == 65 + k && SMALL[k] as int == 97 + k
  {
  }

  /** The comparison takes two characters for the same exactly if they are, or are the two cases of a letter. */
  lemma UpperExactly(a: Byte, d: char)
    requires d < 128 as char
    ensures Upper(a) == Upper((d as int) as Byte) <==> Reads(a, d)
  {
    forall k | 0 <= k < 26
      ensures CAPITALS[k] as int == 65 + k && SMALL[k] as int == 97 + k
    {
      Letters(k);
    }
    var e := d as int;
    if 97 <= a <= 122 && a as int - 32 == e {
      var k := a as int - 97;
      assert a as int == SMALL[k] as int && d == CAPITALS[k];
    }
    if 65 <= a <= 90 && a as int + 32 == e {
      var k := a as int - 65;
      assert a as int == CAPITALS[k] as int && d == SMALL[k];
    }
  }

  // ---- names ----

  lemma MethodsSpelled()
    ensures GET == Ascii("GET ") && POST == Ascii("POST ") && VERSION == Ascii(" HTTP/1.")
  {
  }

  lemma LinesSpelled()
    ensures CONTENT_LENGTH == Ascii("Content-Length:") && CONNECTION == Ascii("Connection:")
    ensures COOKIE == Ascii("Cookie:") && AUTH_TOKEN == Ascii("X-Auth-Token:")
  {
  }

  lemma ValuesSpelled()
    ensures KEEP_ALIVE == Ascii("keep-alive") && KEEP_ALIVE_UPPER == Ascii("Keep-Alive")
    ensures BYTES_EQUAL == Ascii("bytes=")
  {
  }

  lemma PathsSpelled()
    ensures SSDP == Ascii("/upnp_device.xml") && AUTH == Ascii("/auth/") && FORM == Ascii("/app/form.shtml")
    ensures FILES == Ascii("/api/files.cgi") && UPLOAD == Ascii("/api/upload.cgi") && APP == Ascii("/app/")
  {
  }

  lemma MarksSpelled()
    ensures OPENER == Ascii("<!--#") && CLOSER == Ascii("-->")
    ensures [DOT, SLASH, QUESTION, HASH] == Ascii("./?#") && [PERCENT, STAR, COLON, DASH] == Ascii("%*:-")
    ensures [SPACE, Base64.PAD] == Ascii(" =")
    ensures NUL == 0 && CR == 13 && LF == 10
    ensures Chunked.TAIL == [13, 10] + Ascii("0") + [13, 10, 13, 10]
  {
  }

  /** The first bytes of a line read as this name, letter case apart. */
  predicate Spelt(s: seq<Byte>, name: string) {
    |s| >= |name| && forall k | 0 <= k < |name| :: Reads(s[k], name[k])
  }

  predicate Plain(name: string) {
    forall k | 0 <= k < |name| :: (0 as char) < name[k] < 128 as char
  }

  /** That is how the server looks at lines. */
  lemma SpeltIsLike(line: seq<Byte>, name: string)
    requires NUL !in line && Plain(name)
    ensures StartsLike(line, Ascii(name)) <==> Spelt(line, name)
  {
    hide Reads, Upper;
    var pat := Ascii(name);
    CStringAt(line, |line|);
    CStringAt(pat, |pat|);
    assert CString(line) == line && CString(pat) == pat;
    forall k | 0 <= k < |name| && k < |line|
      ensures Upper(line[k]) == Upper(pat[k]) <==> Reads(line[k], name[k])
    {
      UpperExactly(line[k], name[k]);
      assert pat[k] == (name[k] as int) as Byte;
    }
  }

  // ---- digits ----

  const DIGITS := "0123456789ABCDEF"
  const SMALL_DIGITS := "0123456789abcdef"
  lemma HexDigitsSpelled(k: nat)
    requires k < 16
    ensures UrlCoding.HexValue(Ascii(DIGITS)[k]) == k && UrlCoding.HexValue(Ascii(SMALL_DIGITS)[k]) == k
    ensures Chunked.HexDigit(k) == Ascii(DIGITS)[k]
  {
  }

  /** And nothing else is a digit. */
  lemma NoOtherHexDigits(c: Byte)
    ensures UrlCoding.HexValue(c) >= 0 ==>
              c == Ascii(DIGITS)[UrlCoding.HexValue(c)] || c == Ascii(SMALL_DIGITS)[UrlCoding.HexValue(c)]
  {
    if UrlCoding.HexValue(c) >= 0 {
      HexDigitsSpelled(UrlCoding.HexValue(c));
      SmallDigits(UrlCoding.HexValue(c));
    }
  }

  lemma SmallDigits(k: nat)
    requires k < 16
    ensures Ascii(DIGITS)[k] as int == (if k < 10 then 48 + k else 55 + k)
    ensures Ascii(SMALL_DIGITS)[k] as int == (if k < 10 then 48 + k else 87 + k)
  {
  }

  /** The size of a chunk is its hexadecimal numeral. */
  function HexNumeral(n: nat): seq<Byte> {
    if n < 16 then [Ascii(DIGITS)[n]] else HexNumeral(n / 16) + [Ascii(DIGITS)[n % 16]]
  }

  lemma {:induction false} HexIsNumeral(n: nat)
    ensures Chunked.Hex(n) == HexNumeral(n)
  {
    if n < 16 {
      HexDigitsSpelled(n);
    } else {
      HexDigitsSpelled(n % 16);
      HexIsNumeral(n / 16);
    }
  }

  /** So 26 is 1A. */
  lemma TwentySix()
    ensures Chunked.Hex(26) == Ascii("1A")
  {
    HexIsNumeral(26);
    assert HexNumeral(1) == [Ascii(DIGITS)[1]] && DIGITS[1] == '1' && DIGITS[10] == 'A';
  }

  /** A byte percent-encoded: its two digits may be of either case. */
  function Escape(b: Byte, high: bool, low: bool): seq<Byte> {
    [PERCENT, Ascii(if high then DIGITS else SMALL_DIGITS)[b as int / 16],
     Ascii(if low then DIGITS else SMALL_DIGITS)[b as int % 16]]
  }

  lemma EscapeDecodes(b: Byte, high: bool, low: bool, rest: seq<Byte>)
    ensures UrlCoding.Decode(Escape(b, high, low) + rest) == [b] + UrlCoding.Decode(rest)
  {
    HexDigitsSpelled(b as int / 16);
    HexDigitsSpelled(b as int % 16);
    hide UrlCoding.HexValue, Ascii;
    var s := Escape(b, high, low) + rest;
    assert s[3..] == rest;
    assert UrlCoding.Escaped(s) == b;
  }

  /** The alphabet of section 4 of RFC 4648: letters, digits, plus and slash. */
  function Base64Char(v: nat): char
    requires v < 64
  {
    if v < 26 then CAPITALS[v] else if v < 52 then SMALL[v - 26] else if v < 62 then DIGITS[v - 52]
    else if v == 62 then '+' else '/'
  }

  lemma AlphabetSpelled(v: nat)
    requires v < 64
    ensures Base64.CharOf(v) as int == Base64Char(v) as int
  {
    if v < 26 {
      Letters(v);
    } else if v < 52 {
      Letters(v - 26);
    } else if v < 62 {
      HexDigitsSpelled(v - 52);
    }
  }
}
