/** What one call on a template serves, from what is known before the call. */
module SsiCalls {
  import opened Bytes
  import opened Limits
  import opened SsiScanner
  import opened WebContent

  // ---- scans that open no tag go only one way ----

  lemma {:induction false} PlainSplit(values: Replacer, s: seq<Byte>, i: nat, m: Mode, j: nat, k: nat)
    requires Plain(s, i, m, j) && Plain(s, i, m, k) && j <= k
    ensures Scan(values, s, i, m, j).Scanned? && Plain(s, j, Scan(values, s, i, m, j).mode, k)
    decreases j - i
  {
    if i < j {
      PlainSplit(values, s, i + Width(s, i, m), After(s, i, m), j, k);
    }
  }

  /** Such a scan does not pass an opener. */
  lemma NotPast(s: seq<Byte>, i: nat, k: nat)
    requires Plain(s, i, Literal, k) && At(s, i, OPENER)
    ensures i == k
  {
  }

  /** If it ends inside a tag, it has been there all the time, and has given nothing. */
  lemma {:induction false} PlainInTag(values: Replacer, s: seq<Byte>, i: nat, m: Mode, j: nat)
    requires Plain(s, i, m, j) && Scan(values, s, i, m, j).Scanned? && Scan(values, s, i, m, j).mode.Tag?
    ensures m.Tag? && Scan(values, s, i, m, j).out == []
    decreases j - i
  {
    if i < j {
      PlainInTag(values, s, i + Width(s, i, m), After(s, i, m), j);
    }
  }

  lemma NameByte(values: Replacer, s: seq<Byte>, i: nat, name: seq<Byte>, j: nat)
    requires i < j <= |s| && !At(s, i, CLOSER)
    ensures Scan(values, s, i, Tag(name), j) == Prepend([], Scan(values, s, i + 1, Tag(name + [s[i]]), j))
  {
  }

  /** An opener within a name is part of the name. */
  lemma OpenerInName(values: Replacer, s: seq<Byte>, i: nat, name: seq<Byte>)
    requires At(s, i, OPENER)
    ensures Scan(values, s, i, Tag(name), i + 5) != Scanned([], Tag([]))
    ensures Scan(values, s, i, Tag(name), i + 5).Scanned? ==> Scan(values, s, i, Tag(name), i + 5).mode != Tag([])
  {
    var u := s[i..i + 5];
    assert s[i] == u[0] && s[i + 1] == u[1] && s[i + 2] == u[2] && s[i + 3] == u[3] && s[i + 4] == u[4];
    var j, n1, n2, n3, n4 := i + 5, name + [s[i]], name + [s[i]] + [s[i + 1]],
      name + [s[i]] + [s[i + 1]] + [s[i + 2]], name + [s[i]] + [s[i + 1]] + [s[i + 2]] + [s[i + 3]];
    NoCloser(s, i);
    NameByte(values, s, i, name, j);
    NameByte(values, s, i + 1, n1, j);
    NameByte(values, s, i + 2, n2, j);
    NameByte(values, s, i + 3, n3, j);
    NameByte(values, s, i + 4, n4, j);
    hide At;
    assert Scan(values, s, j, Tag(n4 + [s[i + 4]]), j) == Scanned([], Tag(n4 + [s[i + 4]]));
  }

  lemma NoCloser(s: seq<Byte>, i: nat)
    requires At(s, i, OPENER)
    ensures forall k | i <= k < i + 5 :: !At(s, k, CLOSER)
  {
    var u := s[i..i + 5];
    assert forall k | 0 <= k < 5 :: u[k] == s[i + k];
    forall k | i <= k < i + 5
      ensures !At(s, k, CLOSER)
    {
      if k + 3 <= |s| {
        var w := s[k..k + 3];
        assert w[0] == s[k] && w[1] == s[k + 1] && w[2] == s[k + 2];
        assert k == i || k == i + 1 || k == i + 2 || k == i + 3 || k == i + 4;
      }
    }
  }

  /** So a tag that has just been opened was opened from outside. */
  lemma OpenedOutside(values: Replacer, s: seq<Byte>, i: nat, m: Mode, j: nat)
    requires Opened(s, i, m, j, Tag([]))
    requires Scan(values, s, i, m, j).Scanned? && Scan(values, s, i, m, j).mode == Tag([])
    ensures Scan(values, s, i, m, j - 5).Scanned? && Scan(values, s, i, m, j - 5).mode == Literal
  {
    PlainIsScanned(values, s, i, m, j - 5);
    ScanCompose(values, s, i, m, j - 5, j);
    var a := Scan(values, s, i, m, j - 5);
    if a.mode.Tag? {
      OpenerInName(values, s, j - 5, a.mode.name);
    }
  }

  // ---- when a call ends the response ----

  /** The scan of all that is left, with values cut off to the room there is. */
  function Ahead(values: Replacer, s: seq<Byte>, v: View, maxSize: nat): Scanned
    requires v.cached <= v.index <= |s|
  {
    Rest(Capped(values, TagRoom(maxSize)), s, v.index - v.cached, v.mode)
  }

  /** Nothing that is left stops a call with enough room: no tag opens but at the very end. */
  ghost predicate Through(s: seq<Byte>, i: nat, m: Mode, end: Mode) {
    Plain(s, i, m, |s|) || Opened(s, i, m, |s|, end)
  }

  ghost predicate EndsNow(values: Replacer, s: seq<Byte>, v: View, maxSize: nat)
    requires v.cached <= v.index <= |s|
  {
    var r := Ahead(values, s, v, maxSize);
    && r.Scanned? && Through(s, v.index - v.cached, v.mode, r.mode)
    && (|r.out| < maxSize || (|r.out| == maxSize && r.mode.Literal?))
  }

  lemma EndIsThrough(values: Replacer, s: seq<Byte>, v: View, maxSize: nat, n: int, block: seq<Byte>, v': View)
    requires SsiStep(values, s, v, maxSize, n, block, v') && v.cached <= v.index < |s| && maxSize >= 1
    requires v'.index == |s| && v'.cached == 0
    ensures EndsNow(values, s, v, maxSize) && block == Ahead(values, s, v, maxSize).out
  {
    hide Plain, Opened, Scan, Copied, Stopped;
    var cap, base := Capped(values, TagRoom(maxSize)), v.index - v.cached;
    if !(v'.mode.Tag? && Opened(s, base, v.mode, |s|, v'.mode)) && v'.mode.Tag? {
      PlainInTag(cap, s, base, v.mode, |s|);
    }
  }

  /** Behind an opener with more to come, something stops every call. */
  lemma OpenerStops(cap: Replacer, s: seq<Byte>, base: nat, m: Mode, p: nat, m': Mode, end: Mode)
    requires p < |s| && Opened(s, base, m, p, m')
    requires Scan(cap, s, base, m, p).Scanned? && Scan(cap, s, base, m, p).mode == m'
    requires Rest(cap, s, base, m).Scanned? && Rest(cap, s, base, m).mode == end
    ensures !Through(s, base, m, end)
  {
    hide Scan;
    OpenedOutside(cap, s, base, m, p);
    if Plain(s, base, m, |s|) {
      PlainSplit(cap, s, base, m, p - 5, |s|);
      NotPast(s, p - 5, |s|);
    } else if Opened(s, base, m, |s|, end) {
      var q: nat, e: nat := p - 5, |s| - 5;
      PlainSplit(cap, s, base, m, q, e);
      NotPast(s, q, e);
    }
  }

  /** So does what may be the beginning of a token. */
  lemma HalfTokenStops(cap: Replacer, s: seq<Byte>, base: nat, m: Mode, p: nat, m': Mode, end: Mode)
    requires base <= p < |s| && Plain(s, base, m, p) && !Known(s, p, Delimiter(m'))
    requires Scan(cap, s, base, m, p).Scanned? && Scan(cap, s, base, m, p).mode == m'
    requires Rest(cap, s, base, m).Scanned? && Rest(cap, s, base, m).mode == end
    ensures !Through(s, base, m, end)
  {
    hide Scan;
    if Plain(s, base, m, |s|) {
      PlainSplit(cap, s, base, m, p, |s|);
    } else if Opened(s, base, m, |s|, end) {
      var e: nat := |s| - 5;
      OpenedOutside(cap, s, base, m, |s|);
      PlainSplit(cap, s, base, m, e, p);
      NotPast(s, e, p);
    }
  }

  /** A full block with more to come leaves more than fits. */
  lemma FullBlockStops(cap: Replacer, s: seq<Byte>, base: nat, m: Mode, p: nat)
    requires base <= p < |s| && Plain(s, base, m, p)
    requires Scan(cap, s, base, m, p).Scanned? && Scan(cap, s, base, m, p).mode == Literal
    requires Rest(cap, s, base, m).Scanned? && Through(s, base, m, Rest(cap, s, base, m).mode)
    ensures var a, r := Scan(cap, s, base, m, p), Rest(cap, s, base, m);
            |r.out| >= |a.out| && (|r.out| == |a.out| ==> r.mode.Tag?)
  {
    hide Scan;
    var r := Rest(cap, s, base, m);
    ScanCompose(cap, s, base, m, p, |s|);
    if Plain(s, base, m, |s|) {
      PlainSplit(cap, s, base, m, p, |s|);
      PlainCopies(cap, s, p, |s|);
    }
  }

  lemma PlainCopies(cap: Replacer, s: seq<Byte>, i: nat, j: nat)
    requires Plain(s, i, Literal, j) && i < j
    ensures Scan(cap, s, i, Literal, j).Scanned? && Scan(cap, s, i, Literal, j).out != []
  {
    PlainIsScanned(cap, s, i, Literal, j);
  }

  /** Exactly then it does, and it serves all that is left. */
  lemma EndsExactly(values: Replacer, s: seq<Byte>, v: View, maxSize: nat, n: int, block: seq<Byte>, v': View)
    requires SsiStep(values, s, v, maxSize, n, block, v') && v.cached <= v.index < |s| && maxSize >= 1
    ensures v'.index == |s| && v'.cached == 0 <==> EndsNow(values, s, v, maxSize)
    ensures EndsNow(values, s, v, maxSize) ==> block == Ahead(values, s, v, maxSize).out
  {
    hide Plain, Scan, Copied, Through, Opened;
    var cap, base, p := Capped(values, TagRoom(maxSize)), v.index - v.cached, v'.index - v'.cached;
    RestIsScanned(cap, s, base, v.mode);
    if p == |s| {
      EndIsThrough(values, s, v, maxSize, n, block, v');
    } else if v'.mode.Tag? && Opened(s, base, v.mode, p, v'.mode) {
      OpenerStops(cap, s, base, v.mode, p, v'.mode, Rest(cap, s, base, v.mode).mode);
    } else if v'.mode.Literal? && |block| == maxSize {
      if Through(s, base, v.mode, Rest(cap, s, base, v.mode).mode) {
        FullBlockStops(cap, s, base, v.mode, p);
      }
    } else {
      HalfTokenStops(cap, s, base, v.mode, p, v'.mode, Rest(cap, s, base, v.mode).mode);
    }
  }
}
