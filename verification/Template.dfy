/** Templates as their author sees them, and the proof that the scanner's substitution is theirs. */
module Template {
  import opened Bytes
  import opened SsiScanner

  datatype Piece = Text(bytes: seq<Byte>) | Reference(name: seq<Byte>)

  function PieceSource(p: Piece): seq<Byte> {
    match p
    case Text(bytes) => bytes
    case Reference(name) => OPENER + name + CLOSER
  }

  function PieceMeaning(values: Replacer, p: Piece): seq<Byte> {
    match p
    case Text(bytes) => bytes
    case Reference(name) => values(name)
  }

  /** The file a template is stored as. */
  function Source(t: seq<Piece>): seq<Byte> {
    if t == [] then [] else PieceSource(t[0]) + Source(t[1..])
  }

  /** What the reader of the page is to see. */
  function Meaning(values: Replacer, t: seq<Piece>): seq<Byte> {
    if t == [] then [] else PieceMeaning(values, t[0]) + Meaning(values, t[1..])
  }

  predicate Lacks(s: seq<Byte>, pat: seq<Byte>) {
    forall i | 0 <= i <= |s| :: !At(s, i, pat)
  }

  /** Texts hold no opener, names hold no closer, and neighbouring texts have been joined. */
  predicate Proper(t: seq<Piece>) {
    t == [] || (
      && (match t[0]
          case Text(bytes) => Lacks(bytes, OPENER) && (|t| > 1 ==> t[1].Reference?)
          case Reference(name) => Lacks(name, CLOSER))
      && Proper(t[1..]))
  }

  // What is left of a text, seen from its next token on.

  lemma OpenerNext(values: Replacer, s: seq<Byte>, i: nat)
    requires At(s, i, OPENER)
    ensures Rest(values, s, i, Literal) == Rest(values, s, i + 5, Tag([]))
  {
    PrependNothing(Rest(values, s, i + 5, Tag([])));
  }

  lemma CloserNext(values: Replacer, s: seq<Byte>, i: nat, name: seq<Byte>)
    requires At(s, i, CLOSER)
    ensures Rest(values, s, i, Tag(name)) == Prepend(values(name), Rest(values, s, i + 3, Literal))
  {
  }

  lemma ByteNext(values: Replacer, s: seq<Byte>, i: nat)
    requires i < |s| && !At(s, i, OPENER)
    ensures Rest(values, s, i, Literal) == Prepend([s[i]], Rest(values, s, i + 1, Literal))
  {
  }

  lemma NameByteNext(values: Replacer, s: seq<Byte>, i: nat, name: seq<Byte>)
    requires i < |s| && !At(s, i, CLOSER)
    ensures Rest(values, s, i, Tag(name)) == Rest(values, s, i + 1, Tag(name + [s[i]]))
  {
    PrependNothing(Rest(values, s, i + 1, Tag(name + [s[i]])));
  }

  lemma {:induction false} CopyRun(values: Replacer, s: seq<Byte>, i: nat, j: nat)
    requires i <= j <= |s| && forall k | i <= k < j :: !At(s, k, OPENER)
    ensures Rest(values, s, i, Literal) == Prepend(s[i..j], Rest(values, s, j, Literal))
    decreases j - i
  {
    hide Rest, At;
    if i < j {
      ByteNext(values, s, i);
      CopyRun(values, s, i + 1, j);
      PrependTwice([s[i]], s[i + 1..j], Rest(values, s, j, Literal));
      assert s[i..j] == [s[i]] + s[i + 1..j];
    } else {
      PrependNothing(Rest(values, s, j, Literal));
    }
  }

  lemma {:induction false} NameRun(values: Replacer, s: seq<Byte>, i: nat, j: nat, name: seq<Byte>)
    requires i <= j <= |s| && forall k | i <= k < j :: !At(s, k, CLOSER)
    ensures Rest(values, s, i, Tag(name)) == Rest(values, s, j, Tag(name + s[i..j]))
    decreases j - i
  {
    hide Rest, At;
    if i < j {
      NameByteNext(values, s, i, name);
      NameRun(values, s, i + 1, j, name + [s[i]]);
      assert name + [s[i]] + s[i + 1..j] == name + s[i..j];
    } else {
      assert name + s[i..j] == name;
    }
  }

  /** An opener cannot start inside a text and end outside it. */
  lemma TextApart(s: seq<Byte>, i: nat, b: seq<Byte>)
    requires i + |b| <= |s| && s[i..i + |b|] == b && Lacks(b, OPENER)
    requires i + |b| == |s| || At(s, i + |b|, OPENER)
    ensures forall k | i <= k < i + |b| :: !At(s, k, OPENER)
  {
    var j := i + |b|;
    forall k | i <= k < j
      ensures !At(s, k, OPENER)
    {
      if k + 5 <= j {
        SliceOfSlice(s, i, j, k - i, k - i + 5);
        assert !At(b, k - i, OPENER);
      } else if k + 5 <= |s| {
        assert s[k..k + 5][j - k] == s[j] == s[j..j + 5][0];
      }
    }
  }

  /** Nor can a closer start inside a name and end outside it. */
  lemma NameApart(s: seq<Byte>, i: nat, name: seq<Byte>)
    requires i + |name| <= |s| && s[i..i + |name|] == name && Lacks(name, CLOSER)
    requires At(s, i + |name|, CLOSER)
    ensures forall k | i <= k < i + |name| :: !At(s, k, CLOSER)
  {
    var j := i + |name|;
    forall k | i <= k < j
      ensures !At(s, k, CLOSER)
    {
      if k + 3 <= j {
        SliceOfSlice(s, i, j, k - i, k - i + 3);
        assert !At(name, k - i, CLOSER);
      } else {
        var d := k + 2 - j;
        assert s[k..k + 3][2] == s[k + 2];
        assert s[j..j + 3][d] == s[j + d] && CLOSER[d] != CLOSER[2];
      }
    }
  }

  /** What follows a prefix of a suffix. */
  lemma Peel(s: seq<Byte>, i: nat, x: seq<Byte>, y: seq<Byte>)
    requires i <= |s| && s[i..] == x + y
    ensures i + |x| <= |s| && s[i..i + |x|] == x && s[i + |x|..] == y
  {
    assert s[i..i + |x|] == s[i..][..|x|];
    assert s[i + |x|..] == s[i..][|x|..];
  }

  lemma ReferenceMeans(values: Replacer, s: seq<Byte>, i: nat, name: seq<Byte>, rest: seq<Byte>)
    requires i <= |s| && s[i..] == OPENER + name + CLOSER + rest && Lacks(name, CLOSER)
    ensures i + |name| + 8 <= |s| && s[i + |name| + 8..] == rest
    ensures Rest(values, s, i, Literal) == Prepend(values(name), Rest(values, s, i + |name| + 8, Literal))
  {
    hide Rest;
    var j := i + 5 + |name|;
    assert s[i..] == OPENER + (name + (CLOSER + rest));
    Peel(s, i, OPENER, name + (CLOSER + rest));
    Peel(s, i + 5, name, CLOSER + rest);
    Peel(s, j, CLOSER, rest);
    NameApart(s, i + 5, name);
    NameRun(values, s, i + 5, j, []);
    assert [] + name == name;
    CloserNext(values, s, j, name);
    OpenerNext(values, s, i);
  }

  lemma TextMeans(values: Replacer, s: seq<Byte>, i: nat, bytes: seq<Byte>, rest: seq<Byte>)
    requires i <= |s| && s[i..] == bytes + rest && Lacks(bytes, OPENER)
    requires rest == [] || OPENER <= rest
    ensures i + |bytes| <= |s| && s[i + |bytes|..] == rest
    ensures Rest(values, s, i, Literal) == Prepend(bytes, Rest(values, s, i + |bytes|, Literal))
  {
    hide Rest;
    var j := i + |bytes|;
    Peel(s, i, bytes, rest);
    if rest != [] {
      assert rest == OPENER + rest[5..];
      Peel(s, j, OPENER, rest[5..]);
    }
    TextApart(s, i, bytes);
    CopyRun(values, s, i, j);
  }

  /** After a text comes the end of the template or a reference. */
  lemma TextIsFollowed(t: seq<Piece>)
    requires t != [] && Proper(t) && t[0].Text?
    ensures Source(t[1..]) == [] || OPENER <= Source(t[1..])
  {
    if |t| > 1 {
      var u := t[1..];
      assert u[0] == t[1];
      assert Source(u) == OPENER + (u[0].name + CLOSER + Source(u[1..]));
    }
  }

  lemma PieceMeans(values: Replacer, s: seq<Byte>, i: nat, t: seq<Piece>)
    requires t != [] && Proper(t) && i <= |s| && s[i..] == PieceSource(t[0]) + Source(t[1..])
    ensures var j := i + |PieceSource(t[0])|;
            && j <= |s| && s[j..] == Source(t[1..])
            && Rest(values, s, i, Literal) == Prepend(PieceMeaning(values, t[0]), Rest(values, s, j, Literal))
  {
    hide Rest, At, Lacks, Source;
    match t[0]
    case Text(bytes) =>
      TextIsFollowed(t);
      TextMeans(values, s, i, bytes, Source(t[1..]));
    case Reference(name) =>
      ReferenceMeans(values, s, i, name, Source(t[1..]));
  }

  lemma FirstPiece(values: Replacer, t: seq<Piece>)
    requires t != [] && Proper(t)
    ensures Proper(t[1..]) && Source(t) == PieceSource(t[0]) + Source(t[1..])
    ensures Meaning(values, t) == PieceMeaning(values, t[0]) + Meaning(values, t[1..])
  {
    hide Lacks, PieceSource, PieceMeaning;
  }

  lemma NoPieces(values: Replacer, s: seq<Byte>)
    ensures Source([]) == [] && Meaning(values, []) == [] && Rest(values, s, |s|, Literal) == Scanned([], Literal)
  {
  }

  lemma {:induction false} SuffixMeans(values: Replacer, s: seq<Byte>, i: nat, t: seq<Piece>)
    requires Proper(t) && i <= |s| && s[i..] == Source(t)
    ensures Rest(values, s, i, Literal) == Scanned(Meaning(values, t), Literal)
    decreases |t|
  {
    hide Rest, PieceSource, PieceMeaning, Proper, Source, Meaning;
    if t == [] {
      NoPieces(values, s);
      assert i == |s|;
    } else {
      FirstPiece(values, t);
      PieceMeans(values, s, i, t);
      SuffixMeans(values, s, i + |PieceSource(t[0])|, t[1..]);
    }
  }

  /** Scanning a stored template substitutes exactly its references, and ends outside any tag. */
  lemma RestMeansTemplate(values: Replacer, t: seq<Piece>)
    requires Proper(t)
    ensures Rest(values, Source(t), 0, Literal) == Scanned(Meaning(values, t), Literal)
  {
    assert Source(t)[0..] == Source(t);
    SuffixMeans(values, Source(t), 0, t);
  }
}
