/** Whole responses: what the blocks of all calls add up to, for every sequence of block sizes. */
module Delivery {
  import opened Bytes
  import opened Limits
  import opened SsiScanner
  import opened WebContent
  import opened Template

  /** One call of `ReadContent`: the room it was given and what it served. */
  datatype Call = Call(maxSize: nat, n: int, block: seq<Byte>)

  const START := View(0, 0, 0, Literal)

  /** Everything served, in order. */
  function Output(calls: seq<Call>): seq<Byte> {
    if calls == [] then [] else Output(calls[..|calls| - 1]) + calls[|calls| - 1].block
  }

  // ---- files that are not templates ----

  ghost predicate PlainRun(s: seq<Byte>, vs: seq<View>, calls: seq<Call>) {
    && |vs| == |calls| + 1 && vs[0] == START
    && forall i | 0 <= i < |calls| ::
         vs[i].stage < STAGE_END && PlainStep(s, vs[i], calls[i].maxSize, calls[i].n, calls[i].block, vs[i + 1])
  }

  /** Every call had room for a byte. */
  ghost predicate Roomy(calls: seq<Call>) {
    forall i | 0 <= i < |calls| :: calls[i].maxSize >= 1
  }

  /** After `k` calls, the bytes of the content up to the read index have been served. */
  ghost predicate Served(s: seq<Byte>, v: View, k: nat, out: seq<Byte>, roomy: bool) {
    && v.index <= |s| && out == s[..v.index]
    && (if v.stage == STAGE_END then v.index == |s| else v.stage == k)
    && (roomy ==> k <= if v.stage == STAGE_END then |s| + 1 else v.index)
  }

  lemma StepServes(s: seq<Byte>, v: View, k: nat, out: seq<Byte>, roomy: bool, c: Call, v': View)
    requires Served(s, v, k, out, roomy) && v.stage != STAGE_END && |s| < FILE_LIMIT
    requires if roomy then c.maxSize >= 1 else k + 1 < STAGE_END
    requires PlainStep(s, v, c.maxSize, c.n, c.block, v')
    ensures Served(s, v', k + 1, out + c.block, roomy)
  {
    if v.index < |s| {
      assert s[..v'.index] == s[..v.index] + s[v.index..v'.index];
    } else {
      assert out + [] == out;
    }
  }

  lemma {:induction false} PlainProgress(s: seq<Byte>, vs: seq<View>, calls: seq<Call>, roomy: bool)
    requires PlainRun(s, vs, calls) && |s| < FILE_LIMIT
    requires if roomy then Roomy(calls) else |calls| < STAGE_END
    ensures Served(s, vs[|calls|], |calls|, Output(calls), roomy)
  {
    var k := |calls|;
    if k > 0 {
      hide Served, PlainStep;
      PlainProgress(s, vs[..k], calls[..k - 1], roomy);
      StepServes(s, vs[k - 1], k - 1, Output(calls[..k - 1]), roomy, calls[k - 1], vs[k]);
    }
  }

  /**
    A finished response delivered the content, whole and in order, if there were not so many calls that
    their counter reaches its end; with room for a byte in every call there is at most one call a byte.
   */
  lemma PlainDelivery(s: seq<Byte>, vs: seq<View>, calls: seq<Call>)
    requires PlainRun(s, vs, calls) && |s| < FILE_LIMIT
    ensures (Roomy(calls) || |calls| < STAGE_END) && vs[|calls|].stage == STAGE_END ==> Output(calls) == s
    ensures Roomy(calls) ==> |calls| <= |s| + 1
  {
    if Roomy(calls) {
      PlainProgress(s, vs, calls, true);
    } else if |calls| < STAGE_END {
      PlainProgress(s, vs, calls, false);
    }
    assert s[..|s|] == s;
  }

  // ---- templates ----

  ghost predicate SsiRun(values: Replacer, s: seq<Byte>, vs: seq<View>, calls: seq<Call>) {
    && |vs| == |calls| + 1 && vs[0] == START
    && forall i | 0 <= i < |calls| ::
         && vs[i].stage < STAGE_END && calls[i].maxSize >= 1
         && SsiStep(values, s, vs[i], calls[i].maxSize, calls[i].n, calls[i].block, vs[i + 1])
  }

  /** A call that starts inside a tag has room for whatever the tag may stand for. */
  ghost predicate CallFits(values: Replacer, v: View, c: Call) {
    v.mode.Tag? ==> forall name :: |values(name)| <= TagRoom(c.maxSize)
  }

  ghost predicate Fits(values: Replacer, vs: seq<View>, calls: seq<Call>) {
    forall i | 0 <= i < |calls| && i < |vs| :: CallFits(values, vs[i], calls[i])
  }

  /** Text copied out as it stands is text scanned, whatever names stand for. */
  lemma {:induction false} CopiedIsScanned(values: Replacer, s: seq<Byte>, base: nat, p: nat, block: seq<Byte>, m: Mode)
    requires Copied(s, base, p, block, m)
    ensures base <= p <= |s| && Scan(values, s, base, Literal, p) == Scanned(block, m)
    decreases p - base
  {
    if m.Tag? && base == p - 5 {
      assert Scan(values, s, base, Literal, p) == Prepend([], Scan(values, s, p, Tag([]), p));
    } else if base < p {
      assert !At(s, base, OPENER);
      CopiedIsScanned(values, s, base + 1, p, block[1..], m);
      assert block == [s[base]] + block[1..];
    }
  }

  /** What has been served and the state between calls are those of a scan up to the window. */
  ghost predicate Refined(values: Replacer, s: seq<Byte>, v: View, out: seq<Byte>) {
    && v.cached <= v.index <= |s| && v.cached < MAX_TAG_LEN
    && Scan(values, s, 0, Literal, v.index - v.cached) == Scanned(out, v.mode)
    && Resting(s, v.index - v.cached, v.index, v.mode)
    && (if v.stage == STAGE_END then v.index == |s| && v.cached == 0 else v.stage <= v.index)
  }

  /** Between calls the scan is inside a tag only right behind its opener, or at the end of the file. */
  ghost predicate Resting(s: seq<Byte>, p: nat, index: nat, m: Mode) {
    m.Tag? ==> (m.name == [] && p >= 5 && index - (p - 5) <= MAX_TAG_LEN) || (index == |s| && index - p < 3)
  }

  lemma StepRefines(values: Replacer, s: seq<Byte>, v: View, out: seq<Byte>, c: Call, v': View)
    requires Refined(values, s, v, out) && v.index < |s| < FILE_LIMIT && v.stage != STAGE_END
    requires SsiStep(values, s, v, c.maxSize, c.n, c.block, v') && CallFits(values, v, c)
    ensures Refined(values, s, v', out + c.block) && v'.index > v.index
  {
    hide Scan, At;
    var base, p := v.index - v.cached, v'.index - v'.cached;
    if v.mode.Literal? {
      CopiedIsScanned(values, s, base, p, c.block, v'.mode);
    } else {
      ScanSameReplacer(Capped(values, TagRoom(c.maxSize)), values, s, base, v.mode, p);
    }
    ScanCompose(values, s, 0, Literal, base, p);
  }

  /** Refinement: it is so after every call before the final flush, for all sizes the values fit in. */
  lemma {:induction false} SsiRefinesScan(values: Replacer, s: seq<Byte>, vs: seq<View>, calls: seq<Call>)
    requires SsiRun(values, s, vs, calls) && Fits(values, vs, calls) && |s| < FILE_LIMIT
    requires forall i | 0 <= i < |calls| :: vs[i].index < |s|
    ensures Refined(values, s, vs[|calls|], Output(calls)) && |calls| <= vs[|calls|].index
  {
    hide Refined, SsiStep, CallFits;
    var k := |calls|;
    if k > 0 {
      SsiRefinesScan(values, s, vs[..k], calls[..k - 1]);
      StepRefines(values, s, vs[k - 1], Output(calls[..k - 1]), calls[k - 1], vs[k]);
    } else {
      StartRefined(values, s);
    }
  }

  lemma StartRefined(values: Replacer, s: seq<Byte>)
    ensures Refined(values, s, START, [])
  {
  }

  // ---- finished responses ----

  /** Only the last call of a finished response can find the file already read. */
  lemma FlushIsLast(values: Replacer, s: seq<Byte>, vs: seq<View>, calls: seq<Call>)
    requires SsiRun(values, s, vs, calls)
    ensures forall i | 0 <= i < |calls| - 1 :: vs[i].index < |s|
  {
    forall i | 0 <= i < |calls| - 1
      ensures vs[i].index < |s|
    {
      assert SsiStep(values, s, vs[i], calls[i].maxSize, calls[i].n, calls[i].block, vs[i + 1]);
      assert vs[i + 1].stage < STAGE_END;
    }
  }

  /** What a scan of the file up to `p` gives, followed by the rest of the file as it is. */
  ghost predicate ScannedThenRaw(values: Replacer, s: seq<Byte>, p: nat, out: seq<Byte>) {
    && p <= |s| < p + MAX_TAG_LEN
    && var a := Scan(values, s, 0, Literal, p);
      a.Scanned? && out == a.out + s[p..] && Resting(s, p, |s|, a.mode)
  }

  /** Where what the last call serves unscanned starts in the file, if it starts with the view `v`. */
  function Flushed(s: seq<Byte>, v: View): nat {
    if v.index == |s| && v.cached <= |s| then |s| - v.cached else |s|
  }

  lemma LastStep(values: Replacer, s: seq<Byte>, v: View, out: seq<Byte>, c: Call, v': View) returns (p: nat)
    requires Refined(values, s, v, out) && v.stage != STAGE_END && |s| < FILE_LIMIT
    requires SsiStep(values, s, v, c.maxSize, c.n, c.block, v') && CallFits(values, v, c) && v'.stage == STAGE_END
    ensures p == Flushed(s, v) && ScannedThenRaw(values, s, p, out + c.block)
  {
    if v.index == |s| {
      p := |s| - v.cached;
    } else {
      StepRefines(values, s, v, out, c, v');
      p := |s|;
      assert out + c.block + s[p..] == out + c.block;
    }
  }

  /** A finished response is the scan of the file up to some window, followed by the window as it is. */
  lemma SsiTotal(values: Replacer, s: seq<Byte>, vs: seq<View>, calls: seq<Call>) returns (p: nat)
    requires SsiRun(values, s, vs, calls) && Fits(values, vs, calls) && |s| < FILE_LIMIT
    requires vs[|calls|].stage == STAGE_END
    ensures calls != [] && p == Flushed(s, vs[|calls| - 1]) && |s| < p + MAX_TAG_LEN
    ensures ScannedThenRaw(values, s, p, Output(calls)) && |calls| <= |s| + 1
  {
    var k := |calls|;
    FlushIsLast(values, s, vs, calls);
    SsiRefinesScan(values, s, vs[..k], calls[..k - 1]);
    assert vs[k - 1].index <= |s|;
    hide Refined, SsiStep, CallFits, ScannedThenRaw;
    p := LastStep(values, s, vs[k - 1], Output(calls[..k - 1]), calls[k - 1], vs[k]);
  }

  // ---- when a response is the full substitution ----

  /** A window that is flushed as it is does no harm when no tag opens in it or right before it. */
  lemma RawTailIsRest(values: Replacer, s: seq<Byte>, p: nat, out: seq<Byte>)
    requires ScannedThenRaw(values, s, p, out)
    requires Rest(values, s, 0, Literal).Scanned? && Rest(values, s, 0, Literal).mode.Literal?
    requires forall q: nat | q >= p :: !At(s, q, OPENER)
    requires p >= 5 && |s| - (p - 5) <= MAX_TAG_LEN ==> !At(s, p - 5, OPENER)
    ensures out == Rest(values, s, 0, Literal).out
  {
    var a := Scan(values, s, 0, Literal, p);
    ScanCompose(values, s, 0, Literal, p, |s|);
    InsideScan(values, s, 0, Literal, p);
    if a.mode.Literal? {
      CopyRun(values, s, p, |s|);
      assert s[p..|s|] == s[p..] && s[p..] + [] == s[p..];
    } else if a.mode.name == [] && p >= 5 && |s| - (p - 5) <= MAX_TAG_LEN {
      assert false;
    } else {
      NameRun(values, s, p, |s|, a.mode.name);
    }
  }

  /**
    A finished response is the full substitution when every tag is closed and none opens within the
    last 64 bytes of the file, whatever the block sizes.
   */
  lemma FullSubstitution(values: Replacer, s: seq<Byte>, vs: seq<View>, calls: seq<Call>)
    requires SsiRun(values, s, vs, calls) && Fits(values, vs, calls) && |s| < FILE_LIMIT
    requires vs[|calls|].stage == STAGE_END
    requires Rest(values, s, 0, Literal).Scanned? && Rest(values, s, 0, Literal).mode.Literal?
    requires forall q: nat | q + MAX_TAG_LEN >= |s| :: !At(s, q, OPENER)
    ensures Output(calls) == Rest(values, s, 0, Literal).out
  {
    hide *;
    var p := SsiTotal(values, s, vs, calls);
    RawTailIsRest(values, s, p, Output(calls));
  }

  // ---- and when it is not ----

  /** The first tag opens at `q`. */
  ghost predicate FirstTag(s: seq<Byte>, q: nat) {
    At(s, q, OPENER) && forall k: nat | k < q :: !At(s, k, OPENER)
  }

  /** The file has been read, and the window still shows the opener at `q` or starts right behind it. */
  predicate Missed(s: seq<Byte>, q: nat, v: View) {
    v.index == |s| && v.index <= q + 5 + v.cached
  }

  /** Before the first tag has been dealt with, text is copied out as it stands. */
  ghost predicate Untagged(s: seq<Byte>, q: nat, v: View, out: seq<Byte>) {
    && v.cached <= v.index <= |s| && v.stage <= v.index
    && var p := v.index - v.cached;
    match v.mode
    case Literal => p <= q && out == s[..p]
    case Tag(name) => p == q + 5 && out == s[..q]
  }

  /** The page as it is, or with nothing but the opener taken out of it. */
  predicate Raw(s: seq<Byte>, q: nat, out: seq<Byte>) {
    out == s || (q + 5 <= |s| && out == s[..q] + s[q + 5..])
  }

  lemma StepUntagged(values: Replacer, s: seq<Byte>, q: nat, v: View, out: seq<Byte>, c: Call, v': View)
    requires FirstTag(s, q) && Untagged(s, q, v, out) && v.mode.Literal? && v.index < |s| < FILE_LIMIT
    requires SsiStep(values, s, v, c.maxSize, c.n, c.block, v')
    ensures v'.stage < STAGE_END ==> Untagged(s, q, v', out + c.block)
    ensures v'.stage == STAGE_END ==> Raw(s, q, out + c.block)
    ensures v.index - v.cached + MAX_TAG_LEN >= |s| && v'.stage < STAGE_END ==> Missed(s, q, v')
  {
    hide Scan, Plain, Stopped;
    var p, p' := v.index - v.cached, v'.index - v'.cached;
    assert Copied(s, p, p', c.block, v'.mode);
    if v'.mode.Literal? {
      assert s[..p'] == s[..p] + s[p..p'];
    } else {
      assert p' - 5 == q && s[..q] == s[..p] + s[p..q];
    }
  }

  /** Calls that end before the opener, or right behind it, leave the tag alone. */
  lemma StepKeepsUntagged(values: Replacer, s: seq<Byte>, q: nat, v: View, out: seq<Byte>, c: Call, v': View)
    requires FirstTag(s, q) && Untagged(s, q, v, out) && v.stage < STAGE_END && |s| < FILE_LIMIT
    requires SsiStep(values, s, v, c.maxSize, c.n, c.block, v') && v'.stage < STAGE_END
    requires v'.index <= q + 5 + v'.cached
    ensures Untagged(s, q, v', out + c.block)
  {
    if v.mode.Literal? {
      StepUntagged(values, s, q, v, out, c, v');
    } else {
      assert out + [] == out;
    }
  }

  lemma StepPasses(values: Replacer, s: seq<Byte>, v: View, c: Call, v': View)
    requires SsiStep(values, s, v, c.maxSize, c.n, c.block, v') && v'.stage < STAGE_END
    ensures v.index - v.cached <= v'.index - v'.cached
  {
  }

  /** As long as the window has not passed the opener, the tag has not been dealt with. */
  lemma {:induction false} UntaggedUntil(values: Replacer, s: seq<Byte>, q: nat, vs: seq<View>, calls: seq<Call>)
    requires FirstTag(s, q) && |s| < FILE_LIMIT && SsiRun(values, s, vs, calls) && vs[|calls|].stage < STAGE_END
    requires vs[|calls|].index <= q + 5 + vs[|calls|].cached
    ensures Untagged(s, q, vs[|calls|], Output(calls))
  {
    var k := |calls|;
    if k > 0 {
      hide Untagged, SsiStep, FirstTag;
      StepPasses(values, s, vs[k - 1], calls[k - 1], vs[k]);
      UntaggedUntil(values, s, q, vs[..k], calls[..k - 1]);
      StepKeepsUntagged(values, s, q, vs[k - 1], Output(calls[..k - 1]), calls[k - 1], vs[k]);
    } else {
      assert s[..0] == [];
    }
  }

  lemma FlushIsRaw(values: Replacer, s: seq<Byte>, q: nat, v: View, out: seq<Byte>, c: Call, v': View)
    requires FirstTag(s, q) && Untagged(s, q, v, out) && Missed(s, q, v)
    requires SsiStep(values, s, v, c.maxSize, c.n, c.block, v')
    ensures v'.stage == STAGE_END && Raw(s, q, out + c.block)
  {
    var p := v.index - v.cached;
    assert v.mode.Literal? ==> s[..p] + s[p..] == s;
  }

  lemma EndIsLast(values: Replacer, s: seq<Byte>, vs: seq<View>, calls: seq<Call>, k: nat)
    requires SsiRun(values, s, vs, calls) && k < |calls| && vs[k + 1].stage == STAGE_END
    ensures |calls| == k + 1
  {
  }

  /** Once the window misses it, a first tag is not substituted. */
  lemma MissedStaysRaw(values: Replacer, s: seq<Byte>, q: nat, vs: seq<View>, calls: seq<Call>, k: nat)
    requires FirstTag(s, q) && |s| < FILE_LIMIT && SsiRun(values, s, vs, calls)
    requires k < |calls| && Missed(s, q, vs[k])
    ensures |calls| == k + 1 && vs[k + 1].stage == STAGE_END && Raw(s, q, Output(calls))
  {
    hide Untagged, SsiStep, FirstTag, Raw;
    UntaggedUntil(values, s, q, vs[..k + 1], calls[..k]);
    FlushIsRaw(values, s, q, vs[k], Output(calls[..k]), calls[k], vs[k + 1]);
    EndIsLast(values, s, vs, calls, k);
    assert calls[..k + 1] == calls && calls[..k + 1][..k] == calls[..k];
  }

  /**
    It misses it whenever it starts at or before the opener, within the last 64 bytes of the file: the
    call that starts there reads to the end, and stops behind the opener at the latest.
   */
  lemma LateTagStaysRaw(values: Replacer, s: seq<Byte>, q: nat, vs: seq<View>, calls: seq<Call>, i: nat)
    requires FirstTag(s, q) && |s| < FILE_LIMIT && SsiRun(values, s, vs, calls) && vs[|calls|].stage == STAGE_END
    requires i < |calls| && vs[i].mode.Literal? && vs[i].index <= q + vs[i].cached
    requires vs[i].index + MAX_TAG_LEN >= |s| + vs[i].cached
    ensures Raw(s, q, Output(calls))
  {
    hide Untagged, SsiStep, FirstTag, Raw;
    var us, cs := vs[..i + 1], calls[..i];
    UntaggedUntil(values, s, q, us, cs);
    UntaggedIndex(s, q, vs[i], Output(cs));
    if vs[i].index == |s| {
      MissedStaysRaw(values, s, q, vs, calls, i);
    } else {
      StepUntagged(values, s, q, vs[i], Output(cs), calls[i], vs[i + 1]);
      if i + 1 < |calls| {
        MissedStaysRaw(values, s, q, vs, calls, i + 1);
      } else {
        assert calls[..i + 1] == calls && calls[..i + 1][..i] == cs;
      }
    }
  }

  lemma UntaggedIndex(s: seq<Byte>, q: nat, v: View, out: seq<Byte>)
    requires Untagged(s, q, v, out)
    ensures v.cached <= v.index <= |s|
  {
  }

  /** So a page of at most 64 bytes is never substituted, whatever the block sizes. */
  lemma ShortPageStaysRaw(values: Replacer, s: seq<Byte>, q: nat, vs: seq<View>, calls: seq<Call>)
    requires FirstTag(s, q) && |s| <= MAX_TAG_LEN && SsiRun(values, s, vs, calls) && vs[|calls|].stage == STAGE_END
    ensures Raw(s, q, Output(calls))
  {
    LateTagStaysRaw(values, s, q, vs, calls, 0);
  }

  /**
    For a longer page whose first tag opens within the last 64 bytes, the size of the first block
    is enough: one that ends there, at or before the opener, leaves the tag raw.
   */
  lemma FirstSizeDecides(values: Replacer, s: seq<Byte>, q: nat, vs: seq<View>, calls: seq<Call>)
    requires FirstTag(s, q) && |s| < FILE_LIMIT && SsiRun(values, s, vs, calls) && vs[|calls|].stage == STAGE_END
    requires |s| <= calls[0].maxSize + MAX_TAG_LEN && calls[0].maxSize <= q
    ensures Raw(s, q, Output(calls))
  {
    hide Raw, Output;
    FirstBlockFull(values, s, q, calls[0], vs[1]);
    LateTagStaysRaw(values, s, q, vs, calls, 1);
  }

  lemma FirstBlockFull(values: Replacer, s: seq<Byte>, q: nat, c: Call, v: View)
    requires FirstTag(s, q) && 1 <= c.maxSize <= q && SsiStep(values, s, START, c.maxSize, c.n, c.block, v)
    requires |s| < FILE_LIMIT
    ensures v.mode.Literal? && v.stage < STAGE_END && v.index == c.maxSize + v.cached
  {
    hide Scan, Plain;
    assert Copied(s, 0, v.index - v.cached, c.block, v.mode);
  }

  // ---- templates with a single reference: exactly when it is substituted ----

  function SingleReference(a: seq<Byte>, name: seq<Byte>, b: seq<Byte>): seq<Piece> {
    [Text(a), Reference(name), Text(b)]
  }

  lemma SingleSource(values: Replacer, a: seq<Byte>, name: seq<Byte>, b: seq<Byte>)
    ensures Source(SingleReference(a, name, b)) == a + OPENER + name + CLOSER + b
    ensures Meaning(values, SingleReference(a, name, b)) == a + values(name) + b
    ensures Lacks(a, OPENER) && Lacks(name, CLOSER) && Lacks(b, OPENER) ==> Proper(SingleReference(a, name, b))
  {
    var t, u, v: seq<Piece> := SingleReference(a, name, b), [Reference(name), Text(b)], [Text(b)];
    assert t[1..] == u && u[1..] == v && v[1..] == [];
    assert Source(v) == b + [] == b && Meaning(values, v) == b + [] == b && (Lacks(b, OPENER) ==> Proper(v));
    assert Source(u) == OPENER + name + CLOSER + b && Meaning(values, u) == values(name) + b;
    assert Source(t) == a + (OPENER + name + CLOSER + b) == a + OPENER + name + CLOSER + b;
    assert Meaning(values, t) == a + (values(name) + b) == a + values(name) + b;
  }

  /** No opener stands in a name and the closer behind it, nor reaches out of them. */
  lemma NoOpenerInName(s: seq<Byte>, n: nat, name: seq<Byte>, q: nat)
    requires n + |name| + 3 <= |s| && s[n..n + |name|] == name && s[n + |name|..n + |name| + 3] == CLOSER
    requires Lacks(name, OPENER) && n <= q < n + |name| + 3
    ensures !At(s, q, OPENER)
  {
    var c := n + |name|;
    assert s[c] == s[c..c + 3][0] && s[c + 1] == s[c..c + 3][1] && s[c + 2] == s[c..c + 3][2];
    if q + 5 <= c {
      SliceOfSlice(s, n, c, q - n, q - n + 5);
      assert !At(name, q - n, OPENER);
    } else if q + 5 <= |s| {
      var u := s[q..q + 5];
      assert forall k | 0 <= k < 5 :: u[k] == s[q + k];
      if q < c {
        assert u[c - q] == CLOSER[0];
        assert c - q <= 3 ==> u[c - q + 1] == CLOSER[1];
      } else {
        assert u[0] == s[q];
      }
    }
  }

  /** The one opener is the only place in the file where an opener stands. */
  lemma OnlyOpener(a: seq<Byte>, name: seq<Byte>, b: seq<Byte>, q: nat)
    requires Lacks(a, OPENER) && Lacks(name, OPENER) && Lacks(b, OPENER)
    ensures At(a + OPENER + name + CLOSER + b, q, OPENER) <==> q == |a|
  {
    var s := a + OPENER + name + CLOSER + b;
    var n, c := |a| + 5, |a| + 5 + |name|;
    assert s[|a|..n] == OPENER && s[n..c] == name && s[c..c + 3] == CLOSER && s[c + 3..] == b && s[..|a|] == a;
    if q < |a| {
      assert At(s, |a|, OPENER) && s[0..|a|] == a;
      TextApart(s, 0, a);
    } else if |a| < q < n {
      assert s[q] == s[|a|..n][q - |a|];
      assert q + 5 <= |s| ==> s[q..q + 5][0] == s[q];
    } else if n <= q < c + 3 {
      NoOpenerInName(s, n, name, q);
    } else if q >= c + 3 && q + 5 <= |s| {
      SliceOfSlice(s, c + 3, |s|, q - c - 3, q - c + 2);
      assert s[c + 3..|s|] == b && !At(b, q - c - 3, OPENER);
    }
  }

  /** A page with one reference comes out right exactly when the window never misses the tag. */
  lemma SingleReferenceExact(values: Replacer, a: seq<Byte>, name: seq<Byte>, b: seq<Byte>,
                             vs: seq<View>, calls: seq<Call>)
    requires Lacks(a, OPENER) && Lacks(name, CLOSER) && Lacks(name, OPENER) && Lacks(b, OPENER)
    requires values(name) != OPENER + name + CLOSER && values(name) != name + CLOSER
    requires var s := Source(SingleReference(a, name, b));
             SsiRun(values, s, vs, calls) && Fits(values, vs, calls) && |s| < FILE_LIMIT
    requires vs[|calls|].stage == STAGE_END
    ensures var s := Source(SingleReference(a, name, b));
            Output(calls) == a + values(name) + b <==> forall k | 0 <= k < |calls| :: !Missed(s, |a|, vs[k])
  {
    hide SsiStep, Fits, Lacks, At, Source, Meaning, Proper, Output, Missed, Raw;
    var t := SingleReference(a, name, b);
    var s := Source(t);
    SingleSource(values, a, name, b);
    forall q: nat
      ensures At(s, q, OPENER) <==> q == |a|
    {
      OnlyOpener(a, name, b, q);
    }
    if k: nat :| k < |calls| && Missed(s, |a|, vs[k]) {
      MissedStaysRaw(values, s, |a|, vs, calls, k);
      RawIsNotSubstituted(values, a, name, b, Output(calls));
    } else {
      RestMeansTemplate(values, t);
      SeenIsSubstituted(values, s, |a|, vs, calls);
    }
  }

  /** A page whose only tag opens at `q` is substituted when the window does not miss it. */
  lemma SeenIsSubstituted(values: Replacer, s: seq<Byte>, q: nat, vs: seq<View>, calls: seq<Call>)
    requires SsiRun(values, s, vs, calls) && Fits(values, vs, calls) && |s| < FILE_LIMIT
    requires vs[|calls|].stage == STAGE_END && forall k | 0 <= k < |calls| :: !Missed(s, q, vs[k])
    requires Rest(values, s, 0, Literal).Scanned? && Rest(values, s, 0, Literal).mode.Literal?
    requires q + 8 <= |s| && forall k: nat :: At(s, k, OPENER) ==> k == q
    ensures Output(calls) == Rest(values, s, 0, Literal).out
  {
    hide SsiStep, Fits, Rest, At, Output, Missed, Flushed, ScannedThenRaw;
    var p := SsiTotal(values, s, vs, calls);
    FlushedBehind(s, q, vs[|calls| - 1]);
    RawTailIsRest(values, s, p, Output(calls));
  }

  lemma FlushedBehind(s: seq<Byte>, q: nat, v: View)
    requires !Missed(s, q, v) && q + 8 <= |s|
    ensures Flushed(s, v) > q + 5
  {
  }

  lemma Sandwich(a: seq<Byte>, x: seq<Byte>, y: seq<Byte>, b: seq<Byte>)
    ensures a + x + b == a + y + b ==> x == y
  {
    if |x| == |y| {
      assert (a + x + b)[|a|..|a| + |x|] == x && (a + y + b)[|a|..|a| + |x|] == y;
    } else {
      assert |a + x + b| != |a + y + b|;
    }
  }

  lemma RawIsNotSubstituted(values: Replacer, a: seq<Byte>, name: seq<Byte>, b: seq<Byte>, out: seq<Byte>)
    requires values(name) != OPENER + name + CLOSER && values(name) != name + CLOSER
    requires Raw(a + OPENER + name + CLOSER + b, |a|, out)
    ensures out != a + values(name) + b
  {
    var s := a + OPENER + name + CLOSER + b;
    assert s[..|a|] == a && s[|a| + 5..] == name + CLOSER + b;
    NotSubstituted(values, a, name, b, out);
  }

  lemma NotSubstituted(values: Replacer, a: seq<Byte>, name: seq<Byte>, b: seq<Byte>, out: seq<Byte>)
    requires values(name) != OPENER + name + CLOSER && values(name) != name + CLOSER
    requires out == a + OPENER + name + CLOSER + b || out == a + (name + CLOSER + b)
    ensures out != a + values(name) + b
  {
    Sandwich(a, OPENER + name + CLOSER, values(name), b);
    Sandwich(a, name + CLOSER, values(name), b);
    assert a + OPENER + name + CLOSER + b == a + (OPENER + name + CLOSER) + b;
    assert a + (name + CLOSER + b) == a + (name + CLOSER) + b;
  }

  // ---- a page written out ----

  lemma NoOpener(s: seq<Byte>)
    requires OPENER[0] !in s
    ensures Lacks(s, OPENER)
  {
    forall i | 0 <= i <= |s|
      ensures !At(s, i, OPENER)
    {
      assert i + 5 <= |s| ==> s[i..i + 5][0] == s[i];
    }
  }

  /** A tag with enough text behind it is always replaced. */
  lemma EarlyTagIsReplaced(values: Replacer, a: seq<Byte>, name: seq<Byte>, b: seq<Byte>,
                           vs: seq<View>, calls: seq<Call>)
    requires Lacks(a, OPENER) && Lacks(name, CLOSER) && Lacks(name, OPENER) && Lacks(b, OPENER)
    requires |name| + |b| + 8 > MAX_TAG_LEN
    requires var s := a + OPENER + name + CLOSER + b;
             SsiRun(values, s, vs, calls) && Fits(values, vs, calls) && |s| < FILE_LIMIT
    requires vs[|calls|].stage == STAGE_END
    ensures Output(calls) == a + values(name) + b
  {
    hide SsiRun, Fits, Lacks, At, Source, Meaning, Proper, Output;
    var t := SingleReference(a, name, b);
    SingleSource(values, a, name, b);
    forall q: nat
      ensures At(Source(t), q, OPENER) <==> q == |a|
    {
      OnlyOpener(a, name, b, q);
    }
    RestMeansTemplate(values, t);
    FullSubstitution(values, Source(t), vs, calls);
  }

  /** "<p><!--#NAME-->" and enough text behind it come out with the value of NAME for the tag. */
  lemma LiteralPage(values: Replacer, page: seq<Byte>, text: seq<Byte>, vs: seq<View>, calls: seq<Call>)
    requires page == Ascii("<p><!--#NAME-->") + text && 60 !in text && |text| > MAX_TAG_LEN
    requires SsiRun(values, page, vs, calls) && Fits(values, vs, calls) && |page| < FILE_LIMIT
    requires vs[|calls|].stage == STAGE_END
    ensures Output(calls) == Ascii("<p>") + values(Ascii("NAME")) + text
  {
    var a, name := Written();
    Pieces(a, name);
    NoOpener(text);
    hide SsiRun, Fits, Lacks, Output, Ascii;
    EarlyTagIsReplaced(values, a, name, text, vs, calls);
  }

  lemma Written() returns (a: seq<Byte>, name: seq<Byte>)
    ensures a == Ascii("<p>") && name == Ascii("NAME") && a == [60, 112, 62] && name == [78, 65, 77, 69]
    ensures Ascii("<p><!--#NAME-->") == a + OPENER + name + CLOSER
  {
    a, name := Ascii("<p>"), Ascii("NAME");
  }

  lemma Pieces(a: seq<Byte>, name: seq<Byte>)
    requires a == [60, 112, 62] && name == [78, 65, 77, 69]
    ensures Lacks(a, OPENER) && Lacks(name, OPENER) && Lacks(name, CLOSER)
  {
    forall i | 0 <= i <= 4
      ensures !At(name, i, CLOSER)
    {
      assert i + 3 <= 4 ==> name[i..i + 3][0] == name[i];
    }
  }
}
