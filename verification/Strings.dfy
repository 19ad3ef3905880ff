/** Case-blind comparison of C strings. */
module Strings {
  import opened Bytes

  function Upper(c: Byte): Byte {
    if 97 <= c <= 122 then c - 32 else c
  }

  /** The C string stored at the start of `s`: everything before the first NUL. */
  function CString(s: seq<Byte>): (t: seq<Byte>)
    ensures t <= s && NUL !in t
    ensures |t| < |s| ==> s[|t|] == NUL
  {
    if s == [] || s[0] == NUL then [] else [s[0]] + CString(s[1..])
  }

  /** The first `n` characters of the two C strings are equal, letter case apart. */
  predicate SameNoCase(a: seq<Byte>, b: seq<Byte>, n: nat) {
    var x, y := CString(a), CString(b);
    (|x| < n || |y| < n ==> |x| == |y|) &&
    forall k | 0 <= k < n && k < |x| && k < |y| :: Upper(x[k]) == Upper(y[k])
  }

  lemma {:induction false} CStringAt(s: seq<Byte>, i: nat)
    requires i <= |s| && forall k | 0 <= k < i :: s[k] != NUL
    ensures i <= |CString(s)|
    ensures i < |s| && s[i] == NUL ==> |CString(s)| == i
  {
    if i > 0 {
      CStringAt(s[1..], i - 1);
    }
  }

  /** Zero exactly when the strings agree, letter case apart, on their first `n` characters. */
  method Strnicmp(a: seq<Byte>, b: seq<Byte>, n: nat) returns (r: int)
    ensures r == 0 <==> SameNoCase(a, b, n)
    ensures r == -1 || r == 0 || r == 1
  {
    var i := 0;
    while i < |a| && a[i] != NUL && i < |b| && b[i] != NUL && i < n
      invariant i <= |a| && i <= |b| && i <= n
      invariant forall k | 0 <= k < i :: a[k] != NUL && b[k] != NUL && Upper(a[k]) == Upper(b[k])
    {
      if Upper(a[i]) != Upper(b[i]) {
        CStringAt(a, i + 1);
        CStringAt(b, i + 1);
        assert Upper(CString(a)[i]) != Upper(CString(b)[i]);
        return if Upper(a[i]) < Upper(b[i]) then -1 else 1;
      }
      i := i + 1;
    }
    CStringAt(a, i);
    CStringAt(b, i);
    if i == n {
      return 0;
    }
    if i < |a| && a[i] != NUL {
      CStringAt(a, i + 1);
      return 1;
    }
    if i < |b| && b[i] != NUL {
      CStringAt(b, i + 1);
      return -1;
    }
    return 0;
  }

  /** Against a pattern without letters and NULs the comparison is exact. */
  lemma ExactOnSymbols(a: seq<Byte>, pat: seq<Byte>)
    requires |a| >= |pat|
    requires forall c | c in pat :: c != NUL && Upper(c) == c && !(65 <= c <= 90)
    ensures SameNoCase(a, pat, |pat|) <==> a[..|pat|] == pat
  {
    assert forall k | 0 <= k < |pat| :: pat[k] in pat;
    CStringAt(pat, |pat|);
    assert CString(pat) == pat;
    if SameNoCase(a, pat, |pat|) {
      forall k | 0 <= k < |pat|
        ensures a[k] == pat[k]
      {
        assert Upper(CString(a)[k]) == Upper(pat[k]);
        assert pat[k] in pat;
      }
    } else if a[..|pat|] == pat {
      forall k | 0 <= k < |pat|
        ensures a[k] != NUL
      {
        assert a[k] == a[..|pat|][k] == pat[k];
        assert pat[k] in pat;
      }
      CStringAt(a, |pat|);
      forall k | 0 <= k < |pat|
        ensures CString(a)[k] == pat[k]
      {
        assert CString(a)[k] == a[k] == a[..|pat|][k];
      }
    }
  }
}
