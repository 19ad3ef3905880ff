/** When the first or the last block of a template's response is empty: conditions on the page alone. */
module EmptyBlocks {
  import opened Bytes
  import opened Delivery
  import opened Limits
  import opened SsiCalls
  import opened SsiScanner
  import opened Template
  import opened WebContent

  // ---- the first block ----

  /** The page is empty, starts with a tag, or is too short to tell. */
  predicate FirstEmpty(s: seq<Byte>) {
    s == [] || At(s, 0, OPENER) || (|s| < 5 && s[0] == OPENER[0])
  }

  lemma FirstBlock(values: Replacer, s: seq<Byte>, c: Call, v: View)
    requires SsiStep(values, s, START, c.maxSize, c.n, c.block, v) && c.maxSize >= 1
    ensures c.block == [] <==> FirstEmpty(s)
  {
    hide Scan;
    assert s != [] ==> Copied(s, 0, v.index - v.cached, c.block, v.mode);
  }

  // ---- the last block ----

  /** From some token on, the page is tags that stand for nothing. */
  ghost predicate LastEmpty(values: Replacer, s: seq<Byte>) {
    exists q: nat :: At(s, q, OPENER) && EmptyFrom(values, s, q)
  }

  ghost predicate EmptyFrom(values: Replacer, s: seq<Byte>, q: nat) {
    && q <= |s| && Scan(values, s, 0, Literal, q).Scanned? && Scan(values, s, 0, Literal, q).mode.Literal?
    && Rest(values, s, q, Literal).Scanned? && Rest(values, s, q, Literal).out == []
  }

  /** A scan can be cut at any token boundary it passes, and its output only grows. */
  lemma {:induction false} Cut(values: Replacer, s: seq<Byte>, i: nat, m: Mode, j: nat, k: nat)
    requires i <= j <= k <= |s| && Plain(s, i, m, k) && Scan(values, s, i, m, j).Scanned?
    ensures Plain(s, i, m, j)
    decreases j - i
  {
    if i < j {
      Cut(values, s, i + Width(s, i, m), After(s, i, m), j, k);
    }
  }

  /** What has been given up to a token boundary only grows, and all of it is there where nothing more comes. */
  lemma Grows(values: Replacer, s: seq<Byte>, q: nat, p: nat)
    requires q <= p <= |s| && EmptyFrom(values, s, q) && Scan(values, s, 0, Literal, p).Scanned?
    requires Rest(values, s, 0, Literal).Scanned?
    ensures |Rest(values, s, 0, Literal).out| <= |Scan(values, s, 0, Literal, p).out|
  {
    ScanCompose(values, s, 0, Literal, q, p);
    ScanCompose(values, s, 0, Literal, q, |s|);
  }

  /** The window between two calls that is inside a tag starts right behind the opener. */
  lemma TagOpened(values: Replacer, s: seq<Byte>, v0: View, out0: seq<Byte>, c: Call, v: View, out: seq<Byte>)
    requires Refined(values, s, v0, out0) && v0.index < |s| && Refined(values, s, v, out) && v.index < |s|
    requires SsiStep(values, s, v0, c.maxSize, c.n, c.block, v) && v.mode.Tag?
    ensures v.cached + 5 <= v.index
    ensures var q: nat := v.index - v.cached - 5;
            && At(s, q, OPENER) && v.mode == Tag([])
            && Scan(values, s, 0, Literal, q).Scanned? && Scan(values, s, 0, Literal, q).mode.Literal?
  {
    hide Scan, Plain, Copied, At;
    var b, p := v0.index - v0.cached, v.index - v.cached;
    ScanCompose(values, s, 0, Literal, b, p);
    OpenedOutside(values, s, b, v0.mode, p);
    ScanCompose(values, s, 0, Literal, b, p - 5);
  }

  lemma TagOnTheWay(values: Replacer, s: seq<Byte>, i: nat, m: Mode, q: nat)
    requires i <= q && At(s, q, OPENER) && Scan(values, s, i, m, q).Scanned? && Scan(values, s, i, m, q).mode.Literal?
    ensures !Plain(s, i, m, |s|)
  {
    hide Scan;
    if Plain(s, i, m, |s|) {
      Cut(values, s, i, m, q, |s|);
      PlainSplit(values, s, i, m, q, |s|);
    }
  }

  /** A last call that scans gives nothing exactly when nothing comes from some tag on. */
  lemma LastScan(values: Replacer, s: seq<Byte>, v: View, out: seq<Byte>, c: Call, v': View)
    requires Refined(values, s, v, out) && v.index < |s| && Refined(values, s, v', out + c.block)
    requires SsiStep(values, s, v, c.maxSize, c.n, c.block, v') && v'.index == |s| && v'.cached == 0
    requires v'.mode.Literal?
    requires v.mode.Tag? ==>
               && v.cached + 5 <= v.index && v.mode == Tag([])
               && var q: nat := v.index - v.cached - 5;
               && At(s, q, OPENER)
               && Scan(values, s, 0, Literal, q).Scanned? && Scan(values, s, 0, Literal, q).mode.Literal?
    ensures c.block == [] <==> LastEmpty(values, s)
  {
    hide Scan, Plain, Copied, At;
    var base := v.index - v.cached;
    ScanCompose(values, s, 0, Literal, base, |s|);
    var r := Rest(values, s, base, v.mode);
    assert (out + r.out)[|out|..] == r.out && (out + c.block)[|out|..] == c.block;
    if c.block == [] {
      var q := if v.mode.Tag? then base - 5 else base;
      if v.mode.Tag? {
        OpenerNext(values, s, q);
      } else {
        OpenerIsNext(values, s, q);
      }
      assert At(s, q, OPENER) && EmptyFrom(values, s, q);
    }
    if q: nat :| At(s, q, OPENER) && EmptyFrom(values, s, q) {
      if q <= base {
        Grows(values, s, q, base);
      } else {
        ScanCompose(values, s, 0, Literal, base, q);
        TagOnTheWay(values, s, base, v.mode, q);
      }
    }
  }

  lemma OpenerIsNext(values: Replacer, s: seq<Byte>, i: nat)
    requires i < |s| && Rest(values, s, i, Literal).Scanned? && Rest(values, s, i, Literal).out == []
    ensures At(s, i, OPENER)
  {
    if !At(s, i, OPENER) {
      ByteNext(values, s, i);
    }
  }

  /** Between two calls the file is never done: the window shows what is left of it. */
  lemma NotDone(values: Replacer, s: seq<Byte>, vs: seq<View>, calls: seq<Call>, k: nat)
    requires SsiRun(values, s, vs, calls) && k < |calls| && s != [] && vs[k].index == |s|
    ensures vs[k].cached > 0
  {
    if k > 0 {
      assert SsiStep(values, s, vs[k - 1], calls[k - 1].maxSize, calls[k - 1].n, calls[k - 1].block, vs[k]);
    }
  }

  /** A flush never is empty, and what stands in the window is more than nothing. */
  lemma LastFlush(values: Replacer, s: seq<Byte>, v: View, out: seq<Byte>, c: Call, v': View)
    requires Refined(values, s, v, out) && v.index == |s| && v.cached > 0
    requires SsiStep(values, s, v, c.maxSize, c.n, c.block, v')
    requires Rest(values, s, 0, Literal).Scanned? && Rest(values, s, 0, Literal).out == out + c.block
    requires forall q: nat | q + MAX_TAG_LEN >= |s| :: !At(s, q, OPENER)
    ensures c.block != [] && !LastEmpty(values, s)
  {
    hide Scan, At;
    if q: nat :| At(s, q, OPENER) && EmptyFrom(values, s, q) {
      Grows(values, s, q, v.index - v.cached);
    }
  }

  lemma LastCallScans(values: Replacer, s: seq<Byte>, vs: seq<View>, calls: seq<Call>, k: nat)
    requires SsiRun(values, s, vs, calls) && Fits(values, vs, calls) && |s| < FILE_LIMIT
    requires |calls| == k + 1 && vs[k + 1].stage == STAGE_END
    requires forall i | 0 <= i <= k :: vs[i].index < |s|
    requires Refined(values, s, vs[k], Output(calls[..k]))
    requires Rest(values, s, 0, Literal).Scanned? && Rest(values, s, 0, Literal).mode.Literal?
    ensures calls[k].block == [] <==> LastEmpty(values, s)
  {
    hide SsiStep, Scan, At, CallFits, LastEmpty, Resting;
    var out := Output(calls[..k]);
    StepRefines(values, s, vs[k], out, calls[k], vs[k + 1]);
    if vs[k].mode.Tag? {
      SsiRefinesScan(values, s, vs[..k], calls[..k - 1]);
      TagOpened(values, s, vs[k - 1], Output(calls[..k - 1]), calls[k - 1], vs[k], out);
    }
    LastScan(values, s, vs[k], out, calls[k], vs[k + 1]);
  }

  /**
    Where the response is the full substitution, its last block is empty exactly when the page ends in
    tags that stand for nothing.
   */
  lemma LastBlock(values: Replacer, s: seq<Byte>, vs: seq<View>, calls: seq<Call>)
    requires SsiRun(values, s, vs, calls) && Fits(values, vs, calls) && 0 < |s| < FILE_LIMIT
    requires vs[|calls|].stage == STAGE_END
    requires Rest(values, s, 0, Literal).Scanned? && Rest(values, s, 0, Literal).mode.Literal?
    requires forall q: nat | q + MAX_TAG_LEN >= |s| :: !At(s, q, OPENER)
    ensures calls != [] && (calls[|calls| - 1].block == [] <==> LastEmpty(values, s))
  {
    hide SsiStep, Scan, Rest, Resting, At, CallFits, LastEmpty;
    var k: nat := |calls| - 1;
    var out := Output(calls[..k]);
    FullSubstitution(values, s, vs, calls);
    FlushIsLast(values, s, vs, calls);
    SsiRefinesScan(values, s, vs[..k + 1], calls[..k]);
    if vs[k].index == |s| {
      NotDone(values, s, vs, calls, k);
      LastFlush(values, s, vs[k], out, calls[k], vs[k + 1]);
    } else {
      LastCallScans(values, s, vs, calls, k);
    }
  }

  // ---- what that means for the template ----

  /** The template ends in a reference that stands for nothing, empty texts apart. */
  predicate EndsInNothing(values: Replacer, t: seq<Piece>) {
    t != [] && match t[|t| - 1]
      case Reference(name) => values(name) == []
      case Text(bytes) => bytes == [] && EndsInNothing(values, t[..|t| - 1])
  }

  lemma {:induction false} NameScans(values: Replacer, s: seq<Byte>, i: nat, name: seq<Byte>, c: nat)
    requires i <= c && At(s, c, CLOSER) && forall k | i <= k < c :: !At(s, k, CLOSER)
    ensures Scan(values, s, i, Tag(name), c + 3) == Scanned(values(name + s[i..c]), Literal)
    ensures forall q | i <= q < c + 3 ::
              Scan(values, s, i, Tag(name), q).Scanned? ==> Scan(values, s, i, Tag(name), q).mode.Tag?
    decreases c - i
  {
    if i < c {
      NameScans(values, s, i + 1, name + [s[i]], c);
      assert name + [s[i]] + s[i + 1..c] == name + s[i..c];
    } else {
      assert name + s[i..c] == name && values(name) + [] == values(name);
    }
  }

  lemma OpenerScans(values: Replacer, s: seq<Byte>, i: nat, q: nat)
    requires At(s, i, OPENER) && i < q <= |s|
    ensures Scan(values, s, i, Literal, q) == if q < i + 5 then Split else Scan(values, s, i + 5, Tag([]), q)
  {
    if q >= i + 5 {
      PrependNothing(Scan(values, s, i + 5, Tag([]), q));
    }
  }

  /** A reference is scanned as a whole. */
  lemma ReferenceScans(values: Replacer, s: seq<Byte>, i: nat, name: seq<Byte>, rest: seq<Byte>)
    requires i <= |s| && s[i..] == OPENER + name + CLOSER + rest && Lacks(name, CLOSER)
    ensures i + |name| + 8 <= |s|
    ensures Scan(values, s, i, Literal, i + |name| + 8) == Scanned(values(name), Literal)
    ensures forall q | i < q < i + |name| + 8 ::
              Scan(values, s, i, Literal, q).Scanned? ==> Scan(values, s, i, Literal, q).mode.Tag?
  {
    hide Scan;
    var c := i + 5 + |name|;
    assert s[i..] == OPENER + (name + (CLOSER + rest));
    Peel(s, i, OPENER, name + (CLOSER + rest));
    Peel(s, i + 5, name, CLOSER + rest);
    Peel(s, c, CLOSER, rest);
    NameApart(s, i + 5, name);
    NameScans(values, s, i + 5, [], c);
    assert [] + name == name;
    forall q | i < q <= c + 3
      ensures Scan(values, s, i, Literal, q) == if q < i + 5 then Split else Scan(values, s, i + 5, Tag([]), q)
    {
      OpenerScans(values, s, i, q);
    }
  }

  lemma PieceScans(values: Replacer, s: seq<Byte>, i: nat, t: seq<Piece>)
    requires t != [] && Proper(t) && i <= |s| && s[i..] == PieceSource(t[0]) + Source(t[1..])
    ensures var j := i + |PieceSource(t[0])|;
            && j <= |s| && s[j..] == Source(t[1..])
            && Scan(values, s, i, Literal, j) == Scanned(PieceMeaning(values, t[0]), Literal)
  {
    hide Rest, Scan, Lacks, Source;
    PieceMeans(values, s, i, t);
    match t[0]
    case Text(bytes) =>
      TextIsFollowed(t);
      var rest := Source(t[1..]);
      Peel(s, i, bytes, rest);
      if rest != [] {
        assert rest == OPENER + rest[5..];
        Peel(s, i + |bytes|, OPENER, rest[5..]);
      }
      TextApart(s, i, bytes);
      CopiedIsScanned(values, s, i, i + |bytes|, bytes, Literal);
    case Reference(name) =>
      ReferenceScans(values, s, i, name, Source(t[1..]));
  }

  /** The pieces of a template are token boundaries. */
  lemma {:induction false} FrontScans(values: Replacer, s: seq<Byte>, i: nat, t: seq<Piece>, n: nat)
    requires Proper(t) && n <= |t| && i <= |s| && s[i..] == Source(t)
    ensures var j := i + |Source(t[..n])|;
            && j <= |s| && s[j..] == Source(t[n..]) && Proper(t[n..])
            && Scan(values, s, i, Literal, j) == Scanned(Meaning(values, t[..n]), Literal)
    decreases n
  {
    hide Scan, Proper, Source, Meaning, PieceSource, PieceMeaning;
    if n == 0 {
      assert t[..0] == [] && t[0..] == t;
      NothingScanned(values, s, i);
    } else {
      var u, v := t[1..], t[..n];
      FirstPiece(values, t);
      PieceScans(values, s, i, t);
      var k := i + |PieceSource(t[0])|;
      FrontScans(values, s, k, u, n - 1);
      assert u[..n - 1] == v[1..] && u[n - 1..] == t[n..] && v[0] == t[0];
      ProperFront(t, n);
      FirstPiece(values, v);
      ScanCompose(values, s, i, Literal, k, k + |Source(v[1..])|);
    }
  }

  lemma {:induction false} ProperFront(t: seq<Piece>, n: nat)
    requires Proper(t) && n <= |t|
    ensures Proper(t[..n])
    decreases n
  {
    hide Lacks;
    if n > 0 {
      ProperFront(t[1..], n - 1);
      assert t[1..][..n - 1] == t[..n][1..] && (n > 1 ==> t[..n][1] == t[1]);
    }
  }

  lemma NothingScanned(values: Replacer, s: seq<Byte>, i: nat)
    requires i <= |s|
    ensures Source([]) == [] && Scan(values, s, i, Literal, i) == Scanned(Meaning(values, []), Literal)
  {
  }

  lemma {:induction false} SourceSplit(t: seq<Piece>, n: nat)
    requires n <= |t|
    ensures Source(t) == Source(t[..n]) + Source(t[n..])
    decreases n
  {
    hide PieceSource;
    if n == 0 {
      assert t[..0] == [] && t[0..] == t;
    } else {
      SourceSplit(t[1..], n - 1);
      assert t[1..][..n - 1] == t[..n][1..] && t[1..][n - 1..] == t[n..];
    }
  }

  /** What stands behind the last boundary is one piece: no tag is opened within it. */
  lemma LastPieceWhole(values: Replacer, s: seq<Byte>, e: nat, p: Piece, q: nat)
    requires e <= |s| && s[e..] == PieceSource(p) && Proper([p]) && At(s, q, OPENER)
    requires e < q ==> Scan(values, s, e, Literal, q).Scanned? && Scan(values, s, e, Literal, q).mode.Literal?
    ensures q <= e
  {
    match p
    case Text(bytes) =>
      assert s[e..|s|] == bytes;
      TextApart(s, e, bytes);
    case Reference(name) =>
      assert s[e..] == OPENER + name + CLOSER + [];
      ReferenceScans(values, s, e, name, []);
  }

  lemma OnePiece(values: Replacer, p: Piece)
    ensures Source([p]) == PieceSource(p) && Meaning(values, [p]) == PieceMeaning(values, p)
  {
    assert [p][1..] == [];
    assert PieceSource(p) + [] == PieceSource(p) && PieceMeaning(values, p) + [] == PieceMeaning(values, p);
  }

  lemma ReferenceOpens(s: seq<Byte>, e: nat, name: seq<Byte>)
    requires e <= |s| && s[e..] == PieceSource(Reference(name))
    ensures At(s, e, OPENER)
  {
    assert s[e..] == OPENER + (name + CLOSER);
    Peel(s, e, OPENER, name + CLOSER);
  }

  lemma NoTags(values: Replacer)
    ensures !LastEmpty(values, Source([]))
  {
  }

  /** Exactly then the last block is empty. */
  lemma {:induction false} LastEmptyMeans(values: Replacer, t: seq<Piece>)
    requires Proper(t)
    ensures LastEmpty(values, Source(t)) <==> EndsInNothing(values, t)
    decreases |t|
  {
    hide Scan, At, Proper, Source, Meaning;
    if t == [] {
      NoTags(values);
    } else {
      var s, n, p := Source(t), |t| - 1, t[|t| - 1];
      var front, e := t[..n], |Source(t[..n])|;
      assert t[n..] == [p] && s[0..] == s;
      SourceSplit(t, n);
      ProperFront(t, n);
      FrontScans(values, s, 0, t, n);
      OnePiece(values, p);
      SuffixMeans(values, s, e, [p]);
      ScanCompose(values, s, 0, Literal, e, |s|);
      LastEmptyMeans(values, front);
      if PieceMeaning(values, p) == [] {
        assert p.Text? ==> s == Source(front);
        if p.Reference? {
          ReferenceOpens(s, e, p.name);
          assert EmptyFrom(values, s, e);
        }
      }
      if q: nat :| At(s, q, OPENER) && EmptyFrom(values, s, q) {
        if e < q {
          ScanCompose(values, s, 0, Literal, e, q);
        }
        LastPieceWhole(values, s, e, p, q);
        Grows(values, s, q, e);
      }
    }
  }
}
