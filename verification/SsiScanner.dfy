/**
  What server-side includes mean: a tag is `<!--#NAME-->`, and a template is read left to right,
  one token at a time.  A token is a whole tag opener, a whole tag closer, or a single byte.
*/
module SsiScanner {
  import opened Bytes

  const OPENER: seq<Byte> := [60, 33, 45, 45, 35] // <!--#
  const CLOSER: seq<Byte> := [45, 45, 62]         // -->
  const MAX_TAG_LEN := 64

  /** Outside a tag, or inside one whose name so far is `name`. */
  datatype Mode = Literal | Tag(name: seq<Byte>)

  /** The text a tag name stands for. */
  type Replacer = seq<Byte> -> seq<Byte>

  /** The result of scanning up to a position, or `Split` when a token straddles it. */
  datatype Scanned = Split | Scanned(out: seq<Byte>, mode: Mode)

  function Width(s: seq<Byte>, i: nat, m: Mode): (w: nat)
    requires i < |s|
    ensures 1 <= w <= |s| - i
  {
    match m
    case Literal => if At(s, i, OPENER) then 5 else 1
    case Tag(_) => if At(s, i, CLOSER) then 3 else 1
  }

  function Emit(values: Replacer, s: seq<Byte>, i: nat, m: Mode): seq<Byte>
    requires i < |s|
  {
    match m
    case Literal => if At(s, i, OPENER) then [] else [s[i]]
    case Tag(name) => if At(s, i, CLOSER) then values(name) else []
  }

  function After(s: seq<Byte>, i: nat, m: Mode): Mode
    requires i < |s|
  {
    match m
    case Literal => if At(s, i, OPENER) then Tag([]) else Literal
    case Tag(name) => if At(s, i, CLOSER) then Literal else Tag(name + [s[i]])
  }

  function Prepend(piece: seq<Byte>, r: Scanned): Scanned {
    match r
    case Split => Split
    case Scanned(out, mode) => Scanned(piece + out, mode)
  }

  lemma PrependTwice(x: seq<Byte>, y: seq<Byte>, r: Scanned)
    ensures Prepend(x, Prepend(y, r)) == Prepend(x + y, r)
  {
    assert r.Scanned? ==> x + (y + r.out) == (x + y) + r.out;
  }

  lemma PrependNothing(r: Scanned)
    ensures Prepend([], r) == r
  {
    assert r.Scanned? ==> [] + r.out == r.out;
  }

  /** Scan `s` from position `i` in mode `m` up to position `j`. */
  function Scan(values: Replacer, s: seq<Byte>, i: nat, m: Mode, j: nat): Scanned
    requires i <= j <= |s|
    decreases j - i
  {
    if i == j then Scanned([], m)
    else
      var k := i + Width(s, i, m);
      if k > j then Split else Prepend(Emit(values, s, i, m), Scan(values, s, k, After(s, i, m), j))
  }

  /** The scan of all that is left: its output is the complete substitution of the rest. */
  function Rest(values: Replacer, s: seq<Byte>, i: nat, m: Mode): Scanned
    requires i <= |s|
  {
    Scan(values, s, i, m, |s|)
  }

  /** Scanning can stop at a token boundary and be taken up again there. */
  lemma {:induction false} ScanCompose(values: Replacer, s: seq<Byte>, i: nat, m: Mode, j: nat, k: nat)
    requires i <= j <= k <= |s|
    requires Scan(values, s, i, m, j).Scanned?
    ensures var a := Scan(values, s, i, m, j);
            Scan(values, s, i, m, k) == Prepend(a.out, Scan(values, s, j, a.mode, k))
    decreases j - i
  {
    if i < j {
      var i', m' := i + Width(s, i, m), After(s, i, m);
      ScanCompose(values, s, i', m', j, k);
      var a := Scan(values, s, i', m', j);
      PrependTwice(Emit(values, s, i, m), a.out, Scan(values, s, j, a.mode, k));
    } else {
      PrependNothing(Scan(values, s, j, m, k));
    }
  }

  /** One more token. */
  lemma ScanToken(values: Replacer, s: seq<Byte>, i: nat, m: Mode, j: nat)
    requires i <= j < |s|
    requires Scan(values, s, i, m, j).Scanned?
    ensures var a := Scan(values, s, i, m, j);
            Scan(values, s, i, m, j + Width(s, j, a.mode))
            == Scanned(a.out + Emit(values, s, j, a.mode), After(s, j, a.mode))
  {
    var a := Scan(values, s, i, m, j);
    var k := j + Width(s, j, a.mode);
    ScanCompose(values, s, i, m, j, k);
    assert Scan(values, s, k, After(s, j, a.mode), k) == Scanned([], After(s, j, a.mode));
    assert Emit(values, s, j, a.mode) + [] == Emit(values, s, j, a.mode);
  }

  /** The end of the text is always on a token boundary. */
  lemma {:induction false} RestIsScanned(values: Replacer, s: seq<Byte>, i: nat, m: Mode)
    requires i <= |s|
    ensures Rest(values, s, i, m).Scanned?
    decreases |s| - i
  {
    if i < |s| {
      RestIsScanned(values, s, i + Width(s, i, m), After(s, i, m));
    }
  }

  /** Only the names that occur matter, so replacers that agree give the same scan. */
  lemma {:induction false} ScanSameReplacer(values: Replacer, others: Replacer, s: seq<Byte>, i: nat, m: Mode, j: nat)
    requires i <= j <= |s|
    requires forall name :: values(name) == others(name)
    ensures Scan(values, s, i, m, j) == Scan(others, s, i, m, j)
    decreases j - i
  {
    if i < j && i + Width(s, i, m) <= j {
      ScanSameReplacer(values, others, s, i + Width(s, i, m), After(s, i, m), j);
    }
  }

  // ---- scans that open no tag ----

  /** The token that changes the mode. */
  function Delimiter(m: Mode): seq<Byte> {
    if m.Literal? then OPENER else CLOSER
  }

  /** What stands at `i` cannot be the beginning of a delimiter that the text is too short for. */
  predicate Known(s: seq<Byte>, i: nat, delimiter: seq<Byte>)
    requires i < |s| && delimiter != []
  {
    s[i] != delimiter[0] || i + |delimiter| <= |s|
  }

  /** Scanning from `i` in mode `m` up to `j`, whole tokens and no opener among them. */
  ghost predicate Plain(s: seq<Byte>, i: nat, m: Mode, j: nat)
    decreases j - i
  {
    i <= j <= |s| && (i < j ==>
      && Known(s, i, Delimiter(m)) && !(m.Literal? && At(s, i, OPENER))
      && i + Width(s, i, m) <= j && Plain(s, i + Width(s, i, m), After(s, i, m), j))
  }

  /** Or with an opener as the very last. */
  ghost predicate Opened(s: seq<Byte>, i: nat, m: Mode, j: nat, m': Mode) {
    m' == Tag([]) && i + 5 <= j && At(s, j - 5, OPENER) && Plain(s, i, m, j - 5)
  }

  lemma {:induction false} PlainIsScanned(values: Replacer, s: seq<Byte>, i: nat, m: Mode, j: nat)
    requires Plain(s, i, m, j)
    ensures Scan(values, s, i, m, j).Scanned?
    decreases j - i
  {
    if i < j {
      PlainIsScanned(values, s, i + Width(s, i, m), After(s, i, m), j);
    }
  }

  lemma {:induction false} PlainTwice(values: Replacer, s: seq<Byte>, i: nat, m: Mode, j: nat, k: nat)
    requires Plain(s, i, m, j) && Scan(values, s, i, m, j).Scanned?
    requires Plain(s, j, Scan(values, s, i, m, j).mode, k)
    ensures Plain(s, i, m, k)
    decreases j - i
  {
    if i < j {
      PlainTwice(values, s, i + Width(s, i, m), After(s, i, m), j, k);
    }
  }

  lemma PlainToken(values: Replacer, s: seq<Byte>, i: nat, m: Mode, j: nat, m': Mode)
    requires Plain(s, i, m, j) && j < |s| && Scan(values, s, i, m, j).Scanned? && Scan(values, s, i, m, j).mode == m'
    requires Known(s, j, Delimiter(m')) && !(m'.Literal? && At(s, j, OPENER))
    ensures Plain(s, i, m, j + Width(s, j, m'))
  {
    assert Plain(s, j + Width(s, j, m'), After(s, j, m'), j + Width(s, j, m'));
    PlainTwice(values, s, i, m, j, j + Width(s, j, m'));
  }

  lemma OpenedTwice(values: Replacer, s: seq<Byte>, i: nat, m: Mode, j: nat, k: nat, m': Mode)
    requires Plain(s, i, m, j) && Scan(values, s, i, m, j).Scanned?
    requires Opened(s, j, Scan(values, s, i, m, j).mode, k, m')
    ensures Opened(s, i, m, k, m')
  {
    PlainTwice(values, s, i, m, j, k - 5);
  }

  /** How a mode reached at `i` sits in the text: the opener, the name so far, and no closer in between. */
  ghost predicate Inside(s: seq<Byte>, i: nat, m: Mode) {
    i <= |s| && (m.Tag? ==>
      && |m.name| + 5 <= i
      && At(s, i - |m.name| - 5, OPENER)
      && s[i - |m.name|..i] == m.name
      && forall e | i - |m.name| <= e < i :: !At(s, e, CLOSER))
  }

  lemma InsideStep(s: seq<Byte>, i: nat, m: Mode)
    requires i < |s| && Inside(s, i, m)
    ensures Inside(s, i + Width(s, i, m), After(s, i, m))
  {
    if m.Tag? && !At(s, i, CLOSER) {
      var name := m.name + [s[i]];
      assert s[i + 1 - |name|..i + 1] == s[i - |m.name|..i] + [s[i]];
    }
  }

  lemma {:induction false} InsideScan(values: Replacer, s: seq<Byte>, i: nat, m: Mode, j: nat)
    requires i <= j <= |s| && Inside(s, i, m) && Scan(values, s, i, m, j).Scanned?
    ensures Inside(s, j, Scan(values, s, i, m, j).mode)
    decreases j - i
  {
    hide Inside;
    if i < j {
      InsideStep(s, i, m);
      InsideScan(values, s, i + Width(s, i, m), After(s, i, m), j);
    }
  }

  /** Every tag is closed, or the text ends, before its name outgrows the 63 bytes that can be kept. */
  ghost predicate NamesFit(s: seq<Byte>) {
    forall i: nat :: At(s, i, OPENER) ==> NameEnds(s, i + 5)
  }

  ghost predicate NameEnds(s: seq<Byte>, i: nat) {
    |s| - i < MAX_TAG_LEN || exists e: nat :: i <= e < i + MAX_TAG_LEN && At(s, e, CLOSER)
  }

  /** So there is always room for one more byte of a name. */
  lemma NameHasRoom(s: seq<Byte>, i: nat, m: Mode)
    requires NamesFit(s) && Inside(s, i, m) && m.Tag? && i < |s|
    ensures |m.name| < MAX_TAG_LEN
    ensures !At(s, i, CLOSER) ==> |m.name| + 1 < MAX_TAG_LEN
  {
    var start := i - |m.name| - 5;
    assert At(s, start, OPENER);
    assert NameEnds(s, start + 5);
  }

  /** A scan under way: `base` to `p` gave `out` and left mode `m`, which sits in the text as it should. */
  ghost predicate Scanning(values: Replacer, s: seq<Byte>, base: nat, m0: Mode, p: nat, out: seq<Byte>, m: Mode) {
    base <= p <= |s| && Scan(values, s, base, m0, p) == Scanned(out, m) && Inside(s, p, m)
  }

  lemma ScanningToken(values: Replacer, s: seq<Byte>, base: nat, m0: Mode, p: nat, out: seq<Byte>, m: Mode)
    requires Scanning(values, s, base, m0, p, out, m) && p < |s|
    ensures Scanning(values, s, base, m0, p + Width(s, p, m), out + Emit(values, s, p, m), After(s, p, m))
  {
    ScanToken(values, s, base, m0, p);
    InsideStep(s, p, m);
  }

  lemma ScanningCompose(values: Replacer, s: seq<Byte>, base: nat, m0: Mode, p: nat, out: seq<Byte>, m: Mode,
                        q: nat, more: seq<Byte>, m': Mode)
    requires Scanning(values, s, base, m0, p, out, m)
    requires Scanning(values, s, p, m, q, more, m')
    ensures Scanning(values, s, base, m0, q, out + more, m')
  {
    ScanCompose(values, s, base, m0, p, q);
  }

  lemma ScanningStart(values: Replacer, s: seq<Byte>, base: nat, m: Mode)
    requires Inside(s, base, m)
    ensures Scanning(values, s, base, m, base, [], m)
  {
  }

  // What one more token does to a scan under way, case by case.

  lemma OpenerScanned(values: Replacer, s: seq<Byte>, base: nat, m0: Mode, p: nat, out: seq<Byte>)
    requires Scanning(values, s, base, m0, p, out, Literal) && At(s, p, OPENER)
    ensures Scanning(values, s, base, m0, p + 5, out, Tag([]))
  {
    ScanningToken(values, s, base, m0, p, out, Literal);
    assert out + [] == out;
  }

  lemma ByteScanned(values: Replacer, s: seq<Byte>, base: nat, m0: Mode, p: nat, out: seq<Byte>)
    requires Scanning(values, s, base, m0, p, out, Literal) && p < |s| && !At(s, p, OPENER)
    ensures Scanning(values, s, base, m0, p + 1, out + [s[p]], Literal)
  {
    ScanningToken(values, s, base, m0, p, out, Literal);
  }

  lemma CloserScanned(values: Replacer, s: seq<Byte>, base: nat, m0: Mode, p: nat, out: seq<Byte>, name: seq<Byte>)
    requires Scanning(values, s, base, m0, p, out, Tag(name)) && At(s, p, CLOSER)
    ensures Scanning(values, s, base, m0, p + 3, out + values(name), Literal)
  {
    ScanningToken(values, s, base, m0, p, out, Tag(name));
  }

  lemma NameScanned(values: Replacer, s: seq<Byte>, base: nat, m0: Mode, p: nat, out: seq<Byte>, name: seq<Byte>)
    requires Scanning(values, s, base, m0, p, out, Tag(name)) && p < |s| && !At(s, p, CLOSER) && NamesFit(s)
    ensures |name| + 1 < MAX_TAG_LEN
    ensures Scanning(values, s, base, m0, p + 1, out, Tag(name + [s[p]]))
  {
    ScanningToken(values, s, base, m0, p, out, Tag(name));
    NameHasRoom(s, p, Tag(name));
    assert out + [] == out;
  }

  // And what it does to a scan that has opened no tag.

  lemma PlainByte(values: Replacer, s: seq<Byte>, base: nat, m0: Mode, p: nat, out: seq<Byte>)
    requires Scanning(values, s, base, m0, p, out, Literal) && Plain(s, base, m0, p) && p < |s| && !At(s, p, OPENER)
    requires Known(s, p, OPENER)
    ensures Plain(s, base, m0, p + 1)
  {
    PlainToken(values, s, base, m0, p, Literal);
  }

  lemma PlainName(values: Replacer, s: seq<Byte>, base: nat, m0: Mode, p: nat, out: seq<Byte>, name: seq<Byte>)
    requires Scanning(values, s, base, m0, p, out, Tag(name)) && Plain(s, base, m0, p) && p < |s|
    requires Known(s, p, CLOSER)
    ensures Plain(s, base, m0, p + if At(s, p, CLOSER) then 3 else 1)
  {
    PlainToken(values, s, base, m0, p, Tag(name));
  }

  lemma PlainCompose(values: Replacer, s: seq<Byte>, base: nat, m0: Mode, p: nat, out: seq<Byte>, m: Mode,
                     q: nat, m': Mode)
    requires Scanning(values, s, base, m0, p, out, m) && Plain(s, base, m0, p)
    ensures Plain(s, p, m, q) ==> Plain(s, base, m0, q)
    ensures Opened(s, p, m, q, m') ==> Opened(s, base, m0, q, m')
  {
    if Plain(s, p, m, q) {
      PlainTwice(values, s, base, m0, p, q);
    }
    if Opened(s, p, m, q, m') {
      OpenedTwice(values, s, base, m0, p, q, m');
    }
  }

  lemma PlainStart(s: seq<Byte>, base: nat, m: Mode)
    requires base <= |s|
    ensures Plain(s, base, m, base)
  {
  }
}
