/** What the server makes of the range a line asks for. */
module Ranges {
  import opened Bytes
  import opened Framing
  import opened HeaderLines

  /** "Range: bytes=a-b", or "Range: bytes=a-" if `b` is empty. */
  function RangeText(a: seq<Byte>, b: seq<Byte>): seq<Byte> {
    RANGE + [SPACE] + (BYTES_EQUAL + (a + ([DASH] + b)))
  }

  /** The range it means. */
  function RangeMeant(a: seq<Byte>, b: seq<Byte>): Range {
    Range(Digits(0, a), if b == [] then NO_END else Digits(0, b) + 1)
  }

  lemma {:induction false} DigitsGrow(x: nat, y: nat, s: seq<Byte>)
    requires x < y
    ensures Digits(x, s) < Digits(y, s)
    decreases |s|
  {
    if s != [] && IsDigit(s[0]) {
      DigitsGrow(10 * x + (s[0] as int - 48), 10 * y + (s[0] as int - 48), s[1..]);
    }
  }

  lemma {:induction false} FirstDash(x: seq<Byte>, rest: seq<Byte>)
    requires DASH !in x
    ensures From(x + ([DASH] + rest), [DASH]) == Some([DASH] + rest)
    decreases |x|
  {
    var s := x + ([DASH] + rest);
    if x == [] {
      assert s == [DASH] + rest && s[0..1] == [DASH];
    } else {
      assert s[1..] == x[1..] + ([DASH] + rest) && s[0..1] == [x[0]];
      FirstDash(x[1..], rest);
    }
  }

  /** What stands from "bytes=" on. */
  lemma BytesFound(rest: seq<Byte>)
    ensures var line := RANGE + [SPACE] + (BYTES_EQUAL + rest);
            From(line[6..], BYTES_EQUAL) == Some(BYTES_EQUAL + rest)
  {
    var line, p := RANGE + [SPACE] + (BYTES_EQUAL + rest), BYTES_EQUAL + rest;
    assert line[6..] == [SPACE] + p && ([SPACE] + p)[1..] == p;
    assert p[0..6] == BYTES_EQUAL && ([SPACE] + p)[0..6][0] == SPACE;
  }

  /** The code reads on behind the first digit. */
  lemma RangeRead(a: seq<Byte>, b: seq<Byte>)
    requires a != [] && AllDigits(a) && AllDigits(b)
    ensures var from, to := Atol(a[1..] + ([DASH] + b)), if b == [] then NO_END else Atol(b) + 1;
            RangeOf(RangeText(a, b)) == if to > from then Range(from, to) else Range(0, 0)
  {
    hide Atol, From;
    var q, d := a[1..] + ([DASH] + b), [DASH] + b;
    BytesFound(a + d);
    assert (BYTES_EQUAL + (a + d))[7..] == q && d[1..] == b;
    FirstDash(a[1..], b);
  }

  /** So what it takes for the start is this. */
  lemma StartRead(a: seq<Byte>, b: seq<Byte>)
    requires a != [] && AllDigits(a) && AllDigits(b)
    ensures Atol(a[1..] + ([DASH] + b)) == if |a| > 1 then Digits(0, a[1..]) else 0 - Digits(0, b)
  {
    var q := a[1..] + ([DASH] + b);
    if |a| > 1 {
      DigitsStop(0, a[1..], [DASH] + b);
      assert IsDigit(q[0]);
      hide Digits;
    } else {
      assert q == [DASH] + b && q[1..] == b;
    }
  }

  /** A number without its first digit is the same exactly if that is a zero. */
  lemma WithoutFirst(a: seq<Byte>)
    requires a != [] && AllDigits(a)
    ensures Digits(0, a[1..]) <= Digits(0, a)
    ensures Digits(0, a[1..]) == Digits(0, a) <==> a[0] == 48
  {
    assert Digits(0, a) == Digits(a[0] as int - 48, a[1..]);
    if a[0] != 48 {
      DigitsGrow(0, a[0] as int - 48, a[1..]);
    }
  }

  /**
    The server keeps the range that a line means exactly when its start has a leading zero to spare, or
    is a single zero and the end is missing or zero.
   */
  lemma RangeKeptExactly(a: seq<Byte>, b: seq<Byte>)
    requires a != [] && AllDigits(a) && AllDigits(b)
    requires Digits(0, a) < RangeMeant(a, b).to
    ensures RangeOf(RangeText(a, b)) == RangeMeant(a, b) <==> a[0] == 48 && (|a| > 1 || b == [] || Digits(0, b) == 0)
  {
    RangeRead(a, b);
    StartRead(a, b);
    WithoutFirst(a);
    EndRead(b);
    if |a| == 1 {
      assert Digits(0, a[1..]) == 0;
    }
    hide Digits, Atol, RangeOf, RangeText;
  }

  lemma EndRead(b: seq<Byte>)
    requires AllDigits(b)
    ensures Atol(b) == Digits(0, b)
    ensures b == [] ==> Digits(0, b) == 0
  {
    if b != [] {
      assert IsDigit(b[0]);
    }
  }
}
