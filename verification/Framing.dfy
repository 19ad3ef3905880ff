/**
  What a stream of bytes means as a sequence of requests, read one byte at a time and without a queue,
  and what single header lines contribute to a request.  Of a line that reaches the size of the line
  buffer, only the second half is kept; that depends on the bytes alone, and not on how they arrive.
*/
module Framing {
  import opened Bytes
  import opened Limits
  import opened Strings

  datatype Method = NoMethod | Get | Post

  /** What the lines of a request head add up to.  `target` is the request line behind the method. */
  datatype Head = Head(verb: Method, target: seq<Byte>, contentLength: int, keepAlive: bool, rangeFrom: int,
                       rangeTo: int, token: seq<Byte>)

  const NO_HEAD := Head(NoMethod, [], -1, false, 0, 0, [])
  const TOKEN_SIZE := 126

  const GET: seq<Byte> := [71, 69, 84, 32]                                                        // "GET "
  const POST: seq<Byte> := [80, 79, 83, 84, 32]                                                   // "POST "
  const CONTENT_LENGTH: seq<Byte> := [67, 111, 110, 116, 101, 110, 116, 45, 76, 101, 110, 103, 116, 104, 58]
  const CONNECTION: seq<Byte> := [67, 111, 110, 110, 101, 99, 116, 105, 111, 110, 58]
  const TRANSFER_ENCODING: seq<Byte> :=
    [84, 114, 97, 110, 115, 102, 101, 114, 45, 69, 110, 99, 111, 100, 105, 110, 103, 58]
  const EXPECT: seq<Byte> := [69, 120, 112, 101, 99, 116, 58]
  const IF_MODIFIED_SINCE: seq<Byte> :=
    [73, 102, 45, 77, 111, 100, 105, 102, 105, 101, 100, 45, 83, 105, 110, 99, 101, 58]
  const RANGE: seq<Byte> := [82, 97, 110, 103, 101, 58]
  const BYTES_EQUAL: seq<Byte> := [98, 121, 116, 101, 115, 61] // "bytes="
  const DASH: Byte := 45
  const NO_END := 0x7FFF_FFFF
  const AUTH_TOKEN: seq<Byte> := [88, 45, 65, 117, 116, 104, 45, 84, 111, 107, 101, 110, 58]
  const COOKIE: seq<Byte> := [67, 111, 111, 107, 105, 101, 58]
  const KEEP_ALIVE: seq<Byte> := [107, 101, 101, 112, 45, 97, 108, 105, 118, 101]
  const KEEP_ALIVE_UPPER: seq<Byte> := [75, 101, 101, 112, 45, 65, 108, 105, 118, 101]
  const COLON: Byte := 58

  predicate Contains(s: seq<Byte>, pat: seq<Byte>) {
    exists i | 0 <= i <= |s| :: At(s, i, pat)
  }

  predicate IsDigit(c: Byte) {
    48 <= c <= 57
  }

  function Digits(acc: nat, s: seq<Byte>): nat
    decreases |s|
  {
    if s != [] && IsDigit(s[0]) then Digits(10 * acc + (s[0] as int - 48), s[1..]) else acc
  }

  /** The C library's atol: white space, a sign, and as many digits as there are. */
  function Atol(s: seq<Byte>): int {
    if s != [] && (s[0] == SPACE || 9 <= s[0] <= 13) then Atol(s[1..])
    else if s != [] && s[0] == 45 then 0 - Digits(0, s[1..])
    else if s != [] && s[0] == 43 then Digits(0, s[1..])
    else Digits(0, s)
  }

  /** strstr: what stands from the first occurrence of the pattern on. */
  function From(s: seq<Byte>, pat: seq<Byte>): Option<seq<Byte>> {
    if At(s, 0, pat) then Some(s)
    else if s == [] then None
    else From(s[1..], pat)
  }

  datatype Range = Range(from: int, to: int)

  /**
    The range a line asks for, or [0, 0).  The code passes over one character more than "bytes=", so
    that the first digit of the start is lost.
   */
  function RangeOf(line: seq<Byte>): Range {
    match From(if |line| >= 6 then line[6..] else [], BYTES_EQUAL)
    case None => Range(0, 0)
    case Some(p) =>
      var q := if |p| >= 7 then p[7..] else [];
      var from := Atol(q);
      var to := match From(q, [DASH])
                case None => 0
                case Some(d) => if |d| >= 2 && IsDigit(d[1]) then Atol(d[1..]) + 1 else NO_END;
      if to > from then Range(from, to) else Range(0, 0)
  }

  /** The value of a header line: what stands behind the first colon and the spaces after it. */
  function ValueOf(line: seq<Byte>, seen: bool): seq<Byte> {
    if line == [] then []
    else if !seen then ValueOf(line[1..], line[0] == COLON)
    else if line[0] == SPACE then ValueOf(line[1..], true)
    else line
  }

  predicate StartsLike(line: seq<Byte>, name: seq<Byte>) {
    SameNoCase(line, name, |name|)
  }

  /** The first line must be a GET or a POST. */
  predicate Acceptable(h: Head, line: seq<Byte>) {
    h.verb != NoMethod || GET <= line || POST <= line
  }

  /** What one more line, without its line break, adds to the head. */
  function Interpret(h: Head, line: seq<Byte>): Head {
    if h.verb == NoMethod then
      if GET <= line then h.(verb := Get, target := line[4..])
      else if POST <= line then h.(verb := Post, target := line[5..])
      else h
    else if StartsLike(line, CONTENT_LENGTH) then
      h.(contentLength := Atol(if |line| >= 15 then line[15..] else []))
    else if StartsLike(line, CONNECTION) then
      h.(keepAlive := Contains(CString(line), KEEP_ALIVE) || Contains(CString(line), KEEP_ALIVE_UPPER))
    else if StartsLike(line, RANGE) then
      var r := RangeOf(CString(line));
      h.(rangeFrom := r.from, rangeTo := r.to)
    else if StartsLike(line, AUTH_TOKEN) || StartsLike(line, COOKIE) then
      var v := CString(ValueOf(line, false));
      h.(token := if |v| > TOKEN_SIZE then v[..TOKEN_SIZE] else v)
    else h
  }

  /** A header line the server itself looks at. */
  predicate Recognized(line: seq<Byte>) {
    || StartsLike(line, CONTENT_LENGTH) || StartsLike(line, CONNECTION) || StartsLike(line, TRANSFER_ENCODING)
    || StartsLike(line, EXPECT) || StartsLike(line, IF_MODIFIED_SINCE) || StartsLike(line, RANGE)
    || StartsLike(line, AUTH_TOKEN) || StartsLike(line, COOKIE)
  }

  /** The lines behind the first that it does not look at. */
  function Strays(lines: seq<seq<Byte>>): seq<seq<Byte>> {
    if lines == [] then []
    else
      var n := |lines| - 1;
      Strays(lines[..n]) + if n > 0 && !Recognized(lines[n]) then [lines[n]] else []
  }

  /** The first line settles the method and the target for good. */
  lemma FirstLineSettles(h: Head, line: seq<Byte>)
    requires Acceptable(h, line)
    ensures Interpret(h, line).verb != NoMethod
    ensures h.verb != NoMethod ==> Interpret(h, line).target == h.target && Interpret(h, line).verb == h.verb
  {
    hide StartsLike, Contains, Atol, ValueOf, RangeOf, CString;
  }

  function HeadOf(lines: seq<seq<Byte>>): Head {
    if lines == [] then NO_HEAD else Interpret(HeadOf(lines[..|lines| - 1]), lines[|lines| - 1])
  }

  lemma OneMoreLine(lines: seq<seq<Byte>>, line: seq<Byte>)
    ensures HeadOf(lines + [line]) == Interpret(HeadOf(lines), line)
    ensures Strays(lines + [line]) == Strays(lines) + if lines != [] && !Recognized(line) then [line] else []
  {
    hide Interpret, Recognized;
    assert (lines + [line])[..|lines|] == lines;
  }

  // ---- the one-pass reader ----

  datatype Request = Request(lines: seq<seq<Byte>>, body: seq<Byte>)

  /** In a head, behind the last line break, with part of a line read; or in a body. */
  datatype Phase = InHead(partial: seq<Byte>) | InBody(left: nat)

  datatype Progress = Progress(finished: seq<Request>, current: Request, phase: Phase)

  const NOTHING := Request([], [])
  const OUTSET := Progress([], NOTHING, InHead([]))

  function Finish(p: Progress): Progress {
    Progress(p.finished + [p.current], NOTHING, InHead([]))
  }

  /** A line has been read; an empty one ends the head. */
  function EndOfLine(p: Progress, line: seq<Byte>): Progress {
    if line != [] then Progress(p.finished, p.current.(lines := p.current.lines + [line]), InHead([]))
    else
      var n := HeadOf(p.current.lines).contentLength;
      if n > 0 then p.(phase := InBody(n)) else Finish(p)
  }

  predicate EndsWithBreak(s: seq<Byte>) {
    |s| >= 2 && s[|s| - 2] == CR && s[|s| - 1] == LF
  }

  function Feed(p: Progress, b: Byte): Progress {
    match p.phase
    case InHead(partial) =>
      var t := partial + [b];
      if EndsWithBreak(t) then EndOfLine(p, t[..|t| - 2])
      else if |t| >= MAX_REQ_BUF_SIZE then p.(phase := InHead(t[MAX_REQ_BUF_SIZE / 2..]))
      else p.(phase := InHead(t))
    case InBody(left) =>
      var q := p.(current := p.current.(body := p.current.body + [b]));
      if left <= 1 then Finish(q) else q.(phase := InBody(left - 1))
  }

  function FeedAll(p: Progress, s: seq<Byte>): Progress
    decreases |s|
  {
    if s == [] then p else FeedAll(Feed(p, s[0]), s[1..])
  }

  /** Reading can stop anywhere and go on with the rest: the reader does not see segments. */
  lemma {:induction false} FeedAppend(p: Progress, a: seq<Byte>, b: seq<Byte>)
    ensures FeedAll(p, a + b) == FeedAll(FeedAll(p, a), b)
    decreases |a|
  {
    var c := a + b;
    if a == [] {
      assert c == b;
    } else {
      assert c[0] == a[0] && c[1..] == a[1..] + b;
      FeedAppend(Feed(p, a[0]), a[1..], b);
    }
  }

  /** No line break within `s`. */
  predicate NoBreak(s: seq<Byte>) {
    forall k | 0 <= k < |s| - 1 :: !(s[k] == CR && s[k + 1] == LF)
  }

  /** Bytes without a line break only lengthen the current line. */
  lemma {:induction false} FeedPartial(p: Progress, x: seq<Byte>, y: seq<Byte>)
    requires p.phase == InHead(x) && NoBreak(x + y) && |x + y| < MAX_REQ_BUF_SIZE
    ensures FeedAll(p, y) == p.(phase := InHead(x + y))
    decreases |y|
  {
    if y == [] {
      assert x + y == x;
    } else {
      var t := x + [y[0]];
      assert x + y == t + y[1..];
      assert |t| >= 2 ==> t[|t| - 2] == (x + y)[|t| - 2] && t[|t| - 1] == (x + y)[|t| - 2 + 1];
      FeedPartial(Feed(p, y[0]), t, y[1..]);
    }
  }

  /** A line that grows too long for the line buffer loses its first half. */
  lemma FeedOverlong(p: Progress, x: seq<Byte>, y: seq<Byte>)
    requires p.phase == InHead(x) && y != [] && NoBreak(x + y) && |x + y| == MAX_REQ_BUF_SIZE
    ensures FeedAll(p, y) == p.(phase := InHead((x + y)[MAX_REQ_BUF_SIZE / 2..]))
  {
    var n := |y| - 1;
    var t, u := x + y, x + y[..n];
    assert t == u + [y[n]] && y == y[..n] + [y[n]];
    assert forall k | 0 <= k < |u| :: u[k] == t[k];
    FeedPartial(p, x, y[..n]);
    FeedAppend(p, y[..n], [y[n]]);
    var q := p.(phase := InHead(u));
    assert !EndsWithBreak(t) by {
      assert !(t[|t| - 2] == CR && t[|t| - 2 + 1] == LF);
    }
    assert FeedAll(q, [y[n]]) == FeedAll(Feed(q, y[n]), [][..]);
  }

  /** The rest of a line of which some has been read, and its break. */
  lemma FeedRestOfLine(p: Progress, x: seq<Byte>, y: seq<Byte>, line: seq<Byte>)
    requires p.phase == InHead(x) && x + y == line + CRLF && y != []
    requires NoBreak(line + [CR]) && |line| + 2 <= MAX_REQ_BUF_SIZE
    ensures FeedAll(p, y) == EndOfLine(p.(phase := InHead(line + [CR])), line)
  {
    var n := |y| - 1;
    assert y == y[..n] + [y[n]] && y[n] == (x + y)[|x| + n] == LF;
    assert x + y[..n] == (x + y)[..|x| + n] == line + [CR];
    FeedPartial(p, x, y[..n]);
    FeedAppend(p, y[..n], [LF]);
    var q := p.(phase := InHead(line + [CR]));
    var t := line + [CR] + [LF];
    assert EndsWithBreak(t) && t[..|t| - 2] == line;
    assert FeedAll(q, [LF]) == FeedAll(Feed(q, LF), [][..]);
  }

  /** A line and its break. */
  lemma FeedLine(p: Progress, line: seq<Byte>)
    requires p.phase == InHead([]) && NoBreak(line + [CR]) && |line| + 2 <= MAX_REQ_BUF_SIZE
    ensures FeedAll(p, line + CRLF) == EndOfLine(p.(phase := InHead(line + [CR])), line)
  {
    assert [] + (line + CRLF) == line + CRLF;
    FeedRestOfLine(p, [], line + CRLF, line);
  }

  /** Part of a body, or all that is left of it. */
  lemma {:induction false} FeedBody(p: Progress, s: seq<Byte>)
    requires p.phase.InBody? && 0 < |s| <= p.phase.left
    ensures var q := p.(current := p.current.(body := p.current.body + s));
            FeedAll(p, s) == if |s| == p.phase.left then Finish(q) else q.(phase := InBody(p.phase.left - |s|))
    decreases |s|
  {
    var q := Feed(p, s[0]);
    if |s| == 1 {
      assert s == [s[0]] && s[1..] == [];
    } else {
      FeedBody(q, s[1..]);
      Associate(p.current.body, [s[0]], s[1..]);
      assert [s[0]] + s[1..] == s;
    }
  }

  // ---- requests as they are written ----

  function Lines(lines: seq<seq<Byte>>): seq<Byte> {
    if lines == [] then [] else (lines[0] + CRLF) + Lines(lines[1..])
  }

  function Render(r: Request): seq<Byte> {
    Lines(r.lines) + (CRLF + r.body)
  }

  predicate IsLine(line: seq<Byte>) {
    line != [] && NoBreak(line + [CR]) && |line| + 2 <= MAX_REQ_BUF_SIZE
  }

  /** Proper lines that fit the line buffer, and a body as long as the head says. */
  predicate WellFormed(r: Request) {
    && (forall k | 0 <= k < |r.lines| :: IsLine(r.lines[k]))
    && var n := HeadOf(r.lines).contentLength;
      |r.body| == if n > 0 then n else 0
  }

  lemma {:induction false} ReadLines(finished: seq<Request>, before: seq<seq<Byte>>, lines: seq<seq<Byte>>)
    requires forall k | 0 <= k < |lines| :: IsLine(lines[k])
    ensures FeedAll(Progress(finished, Request(before, []), InHead([])), Lines(lines))
            == Progress(finished, Request(before + lines, []), InHead([]))
    decreases |lines|
  {
    var p := Progress(finished, Request(before, []), InHead([]));
    if lines == [] {
      assert before + lines == before;
    } else {
      FeedLine(p, lines[0]);
      FeedAppend(p, lines[0] + CRLF, Lines(lines[1..]));
      ReadLines(finished, before + [lines[0]], lines[1..]);
      assert before + [lines[0]] + lines[1..] == before + lines;
    }
  }

  lemma ReadHead(finished: seq<Request>, lines: seq<seq<Byte>>)
    requires forall k | 0 <= k < |lines| :: IsLine(lines[k])
    ensures FeedAll(Progress(finished, NOTHING, InHead([])), Lines(lines) + CRLF)
            == EndOfLine(Progress(finished, Request(lines, []), InHead([CR])), [])
  {
    hide FeedAll, HeadOf, Lines;
    var q := Progress(finished, Request(lines, []), InHead([]));
    ReadLines(finished, [], lines);
    assert [] + lines == lines;
    FeedAppend(Progress(finished, NOTHING, InHead([])), Lines(lines), CRLF);
    FeedLine(q, []);
    assert [] + CRLF == CRLF && [] + [CR] == [CR];
  }

  /** A request is read back as it was written, however many came before it. */
  lemma ReadBack(finished: seq<Request>, r: Request)
    requires WellFormed(r)
    ensures FeedAll(Progress(finished, NOTHING, InHead([])), Render(r))
            == Progress(finished + [r], NOTHING, InHead([]))
  {
    var p := Progress(finished, NOTHING, InHead([]));
    var q := EndOfLine(Progress(finished, Request(r.lines, []), InHead([CR])), []);
    ReadHead(finished, r.lines);
    Associate(Lines(r.lines), CRLF, r.body);
    FeedAppend(p, Lines(r.lines) + CRLF, r.body);
    assert r.body == [] ==> FeedAll(q, r.body) == q;
    hide FeedAll, HeadOf, Feed, Lines;
    if r.body != [] {
      FeedBody(q, r.body);
      assert [] + r.body == r.body;
    }
  }

  function RenderAll(rs: seq<Request>): seq<Byte> {
    if rs == [] then [] else Render(rs[0]) + RenderAll(rs[1..])
  }

  /** Pipelined requests are read back one by one, however the stream was cut. */
  lemma {:induction false} ReadBackAll(finished: seq<Request>, rs: seq<Request>)
    requires forall k | 0 <= k < |rs| :: WellFormed(rs[k])
    ensures FeedAll(Progress(finished, NOTHING, InHead([])), RenderAll(rs))
            == Progress(finished + rs, NOTHING, InHead([]))
    decreases |rs|
  {
    if rs == [] {
      assert finished + rs == finished;
    } else {
      hide FeedAll, Render, WellFormed, Feed;
      var r, rest := rs[0], rs[1..];
      assert forall k | 0 <= k < |rest| :: rest[k] == rs[k + 1];
      ReadBack(finished, r);
      ReadBackAll(finished + [r], rest);
      FeedAppend(Progress(finished, NOTHING, InHead([])), Render(r), RenderAll(rest));
      NextRequest(finished, rs);
    }
  }

  lemma NextRequest(finished: seq<Request>, rs: seq<Request>)
    requires rs != []
    ensures finished + [rs[0]] + rs[1..] == finished + rs
  {
  }

  // ---- what cannot be made up for ----

  /** Reading on never takes back a request. */
  lemma {:induction false} ReadingOn(p: Progress, s: seq<Byte>)
    ensures p.finished <= FeedAll(p, s).finished
    decreases |s|
  {
    if s != [] {
      FeedStep(p, s[0]);
      ReadingOn(Feed(p, s[0]), s[1..]);
    }
  }

  lemma FeedStep(p: Progress, b: Byte)
    ensures p.finished <= Feed(p, b).finished
  {
    hide HeadOf;
  }

  /** More than `n` requests have been read, or part of the next. */
  predicate Moved(n: nat, p: Progress) {
    |p.finished| > n || p.phase.InBody? || p.current.lines != [] || p.phase.partial != []
  }

  lemma StillMoved(n: nat, p: Progress, b: Byte)
    requires |p.finished| >= n && (Moved(n, p) || p.current == NOTHING)
    ensures |Feed(p, b).finished| >= n && Moved(n, Feed(p, b))
  {
    hide Interpret;
  }

  lemma {:induction false} MovedForGood(n: nat, p: Progress, s: seq<Byte>)
    requires |p.finished| >= n && Moved(n, p)
    ensures Moved(n, FeedAll(p, s))
    decreases |s|
  {
    hide Moved, Feed;
    if s != [] {
      StillMoved(n, p, s[0]);
      MovedForGood(n, Feed(p, s[0]), s[1..]);
    }
  }

  /** A reader between two requests does not come back to where it stands. */
  lemma NeverBack(finished: seq<Request>, s: seq<Byte>)
    requires s != []
    ensures var p := Progress(finished, NOTHING, InHead([]));
            FeedAll(p, s) != p
  {
    var p := Progress(finished, NOTHING, InHead([]));
    hide Feed;
    StillMoved(|finished|, p, s[0]);
    MovedForGood(|finished|, Feed(p, s[0]), s[1..]);
  }

  /** The request after the first `n` has a body, all of it read or not. */
  predicate HasBody(n: nat, p: Progress) {
    if |p.finished| > n then p.finished[n].body != [] else |p.finished| == n && p.phase.InBody?
  }

  lemma StillHasBody(n: nat, p: Progress, b: Byte)
    requires HasBody(n, p)
    ensures HasBody(n, Feed(p, b))
  {
    hide HeadOf;
  }

  lemma {:induction false} HasBodyForGood(n: nat, p: Progress, s: seq<Byte>)
    requires HasBody(n, p)
    ensures HasBody(n, FeedAll(p, s))
    decreases |s|
  {
    hide HasBody, Feed;
    if s != [] {
      StillHasBody(n, p, s[0]);
      HasBodyForGood(n, Feed(p, s[0]), s[1..]);
    }
  }

  /** A reader that takes a request for complete never agrees again with one that waits for its body. */
  lemma BodyIsMissed(past: seq<Request>, head: Request, left: nat, s: seq<Byte>)
    requires head.body == []
    ensures FeedAll(Progress(past, head, InBody(left)), s) != FeedAll(Progress(past + [head], NOTHING, InHead([])), s)
  {
    hide Feed;
    var a, b := Progress(past, head, InBody(left)), Progress(past + [head], NOTHING, InHead([]));
    HasBodyForGood(|past|, a, s);
    ReadingOn(b, s);
  }
}
