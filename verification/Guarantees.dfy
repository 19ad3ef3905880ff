/** What holds of a connection in every state it can be in between two events. */
module Guarantees {
  import opened Access
  import opened Bytes
  import opened Framing
  import opened HeaderLines
  import opened HttpCore
  import opened InputQueue
  import opened Limits
  import opened RequestLine
  import opened Response
  import opened Routing
  import opened Sessions
  import opened Spelling
  import opened Strings
  import opened UrlCoding

  // ---- requests ----

  /** What the one-pass reader has read of an exact connection, and what is still to come of it. */
  lemma ReadSoFar(c: RequestContext) returns (rest: seq<Byte>)
    requires c.open && c.Valid() && c.Exact()
    ensures c.inq.Valid() && c.inq.Pending() == c.Front() + rest
    ensures var p := if c.state < HEADER_DONE then Progress(c.past, c.parsed, InHead(c.Front()))
                     else Position(c.state, c.past, c.parsed, c.head.contentLength - c.contentReceived);
            FeedAll(OUTSET, c.inq.received) == FeedAll(p, rest)
  {
    hide FeedAll, EndOfLine, ResponseContext.Valid, RequestContext.Known, RequestContext.Answering, RequestContext.Gate;
    c.inq.Bounds();
    var front, pending := c.Front(), c.inq.Pending();
    assert front == c.inq.buffer[..c.inq.length][..|front|];
    assert pending == front + pending[|front|..];
    Associate(c.inq.consumed, front, pending[|front|..]);
    assert c.state >= HEADER_DONE ==> c.inq.consumed + front == c.inq.consumed;
    rest := pending[|front|..];
    FeedAppend(OUTSET, c.inq.consumed + front, rest);
  }

  /** The requests answered are the first ones of the whole stream, as read in one go. */
  lemma AnswersInOrder(c: RequestContext)
    requires c.open && c.Valid() && c.Exact()
    ensures c.past <= FeedAll(OUTSET, c.inq.received).finished
  {
    hide FeedAll, EndOfLine, RequestContext.Valid, RequestContext.Front, Queue.Pending;
    var rest := ReadSoFar(c);
    var left := c.head.contentLength - c.contentReceived;
    var p := if c.state < HEADER_DONE then Progress(c.past, c.parsed, InHead(c.Front()))
             else Position(c.state, c.past, c.parsed, left);
    ReadingOn(p, rest);
    Reached(c.state, c.past, c.parsed, left);
  }

  lemma Reached(state: nat, past: seq<Request>, parsed: Request, left: int)
    ensures past <= Position(state, past, parsed, left).finished
  {
    hide HeadOf;
  }

  /** While a head is coming in, everything received has been read, up to the last line break. */
  lemma CaughtUp(c: RequestContext)
    requires c.open && c.Valid() && c.Exact() && c.state == HEADER_RECEIVING
    ensures FeedAll(OUTSET, c.inq.received) == Progress(c.past, c.parsed, InHead(c.inq.Pending()))
  {
    hide FeedAll, Queue.Owned, Queue.Credited, ResponseContext.Valid, RequestContext.Known, RequestContext.Answering;
    var rest := ReadSoFar(c);
    c.inq.NoPayload();
    c.inq.Bounds();
    assert c.inq.Pending() == c.inq.buffer[..c.inq.length];
    FeedPartial(Progress(c.past, c.parsed, InHead(c.Front())), c.Front(), rest);
  }

  /**
    Segmentation independence, for any stream: of two connections that have received the same bytes,
    cut and mixed with other events in any way, one has answered the first of the requests the
    other has answered; and if both wait for a head, they have read the same requests and lines.
   */
  lemma SegmentationIndependence(a: RequestContext, b: RequestContext)
    requires a.open && a.Valid() && a.Exact() && b.open && b.Valid() && b.Exact()
    requires a.inq.received == b.inq.received
    ensures a.past <= b.past || b.past <= a.past
    ensures a.state == b.state == HEADER_RECEIVING ==>
              a.past == b.past && a.parsed == b.parsed && a.head == b.head && a.inq.Pending() == b.inq.Pending()
  {
    hide FeedAll, Queue.Valid, ResponseContext.Valid, HeadOf;
    hide RequestContext.Framed, RequestContext.Answering, RequestContext.Gate;
    AnswersInOrder(a);
    AnswersInOrder(b);
    if a.state == b.state == HEADER_RECEIVING {
      CaughtUp(a);
      CaughtUp(b);
    }
  }

  lemma StreamFinishes(rs: seq<Request>, s: seq<Byte>)
    requires forall k | 0 <= k < |rs| :: WellFormed(rs[k])
    requires s <= RenderAll(rs)
    ensures FeedAll(OUTSET, s).finished <= rs
  {
    var all := RenderAll(rs);
    ReadBackAll([], rs);
    hide FeedAll, RenderAll, WellFormed;
    assert [] + rs == rs && all == s + all[|s|..];
    FeedAppend(OUTSET, s, all[|s|..]);
    ReadingOn(FeedAll(OUTSET, s), all[|s|..]);
  }

  /**
    End to end: of a stream of well-formed requests whose lines fit the line buffer, however much has
    arrived of it and in whatever pieces, the requests answered are the first ones of those that
    were sent, lines and bodies and all.
   */
  lemma ServesTheStream(c: RequestContext, rs: seq<Request>)
    requires c.open && c.Valid() && c.Exact()
    requires (forall k | 0 <= k < |rs| :: WellFormed(rs[k])) && c.inq.received <= RenderAll(rs)
    ensures c.past <= rs
  {
    hide FeedAll, RenderAll, WellFormed, RequestContext.Valid;
    StreamFinishes(rs, c.inq.received);
    AnswersInOrder(c);
  }

  /**
    A handler that takes more bytes than are left of the body, as the one for logins does when the
    next request is there already, takes them away from that request: server and reader are in step
    again exactly when nothing was taken in excess.
   */
  lemma OverrunRobsTheNext(past: seq<Request>, parsed: Request, left: nat, s: seq<Byte>)
    requires 0 < left <= |s|
    ensures |s| == left <==>
            FeedAll(Position(BODY_RECEIVING, past, parsed, left), s)
            == Position(BODY_DONE, past, parsed.(body := parsed.body + s[..left]), 0)
  {
    hide FeedAll, HeadOf;
    var p := Position(BODY_RECEIVING, past, parsed, left);
    assert s == s[..left] + s[left..];
    FeedAppend(p, s[..left], s[left..]);
    FeedBody(p, s[..left]);
    if |s| == left {
      assert s[..left] == s;
    } else {
      NeverBack(past + [parsed.(body := parsed.body + s[..left])], s[left..]);
    }
  }

  /** If the excess is the beginning of a line, the reader has it and the server does not. */
  lemma OverrunTakesTheLine(past: seq<Request>, parsed: Request, left: nat, s: seq<Byte>)
    requires 0 < left <= |s| && NoBreak(s[left..]) && |s| - left < 128
    ensures FeedAll(Position(BODY_RECEIVING, past, parsed, left), s)
            == Position(BODY_DONE, past, parsed.(body := parsed.body + s[..left]), 0).(phase := InHead(s[left..]))
  {
    hide FeedAll, HeadOf;
    var p := Position(BODY_RECEIVING, past, parsed, left);
    assert s == s[..left] + s[left..] && [] + s[left..] == s[left..];
    FeedAppend(p, s[..left], s[left..]);
    FeedBody(p, s[..left]);
    FeedPartial(FeedAll(p, s[..left]), [], s[left..]);
  }

  /**
    A request that is answered without reading its body leaves the body to be read as requests: on
    whatever bytes follow, the reader and the server that goes on as if the request were complete
    agree exactly when the head announces no body.
   */
  lemma TurnedAwayExactly(past: seq<Request>, parsed: Request, s: seq<Byte>)
    requires parsed.body == []
    ensures FeedAll(Position(HEADER_DONE, past, parsed, 0), s) == FeedAll(Position(BODY_DONE, past, parsed, 0), s)
            <==> HeadOf(parsed.lines).contentLength <= 0
  {
    hide FeedAll, HeadOf;
    var n := HeadOf(parsed.lines).contentLength;
    if n > 0 {
      BodyIsMissed(past, parsed, n, s);
    }
  }

  // ---- responses ----

  /** What is on the wire and in the buffer is the head and then the blocks, and a head comes first. */
  lemma HeadBeforeBlocks(c: RequestContext)
    requires c.open && c.Valid()
    ensures c.rsp.base <= |c.rsp.pcb.wire| && c.rsp.bytesLeft <= c.rsp.sendBuffer.Length
    ensures c.rsp.pcb.wire[c.rsp.base..] + c.rsp.sendBuffer[..c.rsp.bytesLeft] == c.rsp.head + c.rsp.body
    ensures c.rsp.blocks != [] || c.rsp.head != [] ==> c.rsp.sending && c.rsp.head != [] && c.state >= SENDING_HEADER
    ensures c.rsp.blocks == [] ==> c.rsp.body == []
  {
    hide RequestContext.Known, RequestContext.Framed, RequestContext.Gate, Queue.Valid, Join;
    c.rsp.NothingLoaded();
  }

  /** What is still buffered when a request ends is missing at the end of its response. */
  lemma UnsentIsMissing(c: RequestContext)
    requires c.Ended()
    ensures c.rsp.base <= |c.rsp.pcb.wire| && c.rsp.bytesLeft <= |c.rsp.head + c.rsp.body|
    ensures var all := c.rsp.head + c.rsp.body;
            c.rsp.pcb.wire[c.rsp.base..] == all[..|all| - c.rsp.bytesLeft]
  {
    hide RequestContext.Framed, RequestContext.Shut, Queue.Valid;
    var sent, left := c.rsp.pcb.wire[c.rsp.base..], c.rsp.sendBuffer[..c.rsp.bytesLeft];
    assert (sent + left)[..|sent|] == sent;
  }

  // ---- what a request asks for ----

  function Start(verb: Method): seq<Byte> {
    if verb == Get then Ascii("GET ") else Ascii("POST ")
  }

  lemma Asked(verb: Method, target: seq<Byte>)
    requires verb != NoMethod
    ensures Interpret(NO_HEAD, Start(verb) + target) == NO_HEAD.(verb := verb, target := target)
  {
    hide Interpret, Ascii, Acceptable;
    FirstLineMeans(Start(verb) + target, target);
  }

  lemma VersionSpelled()
    ensures VERSION == Ascii(" HTTP/1.")
  {
    MethodsSpelled();
  }

  /** The path that a request line asks for is the one that was sent, percent-encoded or as it is. */
  lemma AsSent(e: Encoder, path: seq<Byte>, rest: seq<Byte>, verb: Method)
    requires verb != NoMethod && NUL !in path
    requires Sound(e) && !e.keeps(SPACE) && !e.keeps(NUL) && |Encode(e, path)| <= 126
    ensures var h := Interpret(NO_HEAD, Start(verb) + (Encode(e, path) + (Ascii(" HTTP/1.") + rest)));
            h.verb == verb && FullPath(h.target) == path
    ensures SPACE !in path && PERCENT !in path && |path| <= 126 ==>
              FullPath(Interpret(NO_HEAD, Start(verb) + (path + (Ascii(" HTTP/1.") + rest))).target) == path
  {
    hide Interpret, FullPath, Encode, Ascii, Start, Sound;
    VersionSpelled();
    EncodedPath(e, path, rest);
    Asked(verb, Encode(e, path) + (Ascii(" HTTP/1.") + rest));
    Asked(verb, path + (Ascii(" HTTP/1.") + rest));
    if SPACE !in path && PERCENT !in path && |path| <= 126 {
      PlainPath(path, rest);
    }
  }

  // ---- what a handler hears ----

  /** The route, apart from paths with a long run behind a dot. */
  lemma RouteInstalled(c: RequestContext)
    requires c.open && c.Valid() && c.state > HEADER_DONE
    requires c.route(c.head.target) == RouteOf(INSTALLED, c.head.target) && Spill(PathOf(c.head.target)) == None
    ensures c.head.verb != NoMethod && c.gated == c.Barred(c.vouched)
    ensures c.Meant() <==> Allows(PathOf(c.head.target), c.head.verb) && !c.gated
  {
    hide Is, Spelt, FirstMatch, IsExempt, Queue.Valid, ResponseContext.Valid, HeadOf, Authorized, CString, Decode;
    hide Extension, Spill, RequestContext.Handed, NeedsSession, SourceOf, FullPath, RequestContext.Heard;
    hide RequestContext.Framed, RequestContext.Answering, RequestContext.Gate, RequestContext.Barred, BeforeQuestion;
    InstalledAllows(PathOf(c.head.target));
  }

  /**
    With the installed table, the handler of a path hears of a request exactly if the path takes its
    method and the gate has let it through; otherwise the request is redirected or not found, and a
    connection with any other that is refused is not kept open.  A response that is no error is one
    that the handler was asked for when it had all the content.
   */
  lemma ReachesItsHandler(c: RequestContext)
    requires c.open && c.Valid() && c.state > HEADER_DONE
    requires c.route(c.head.target) == RouteOf(INSTALLED, c.head.target) && Spill(PathOf(c.head.target)) == None
    ensures if Allows(PathOf(c.head.target), c.head.verb) && !c.Barred(c.vouched) then
              && c.calls != [] && c.calls[0] == Callback.HeadersReceived
              && (c.state >= SENDING_HEADER ==> c.result == if c.said == 0 then 200 else c.said)
            else
              && Ignored(c.calls) && c.state >= SENDING_HEADER
              && (c.result == -307 || (c.result == -404 && c.head.verb == Get))
    ensures c.state >= SENDING_HEADER && c.result >= 0 ==> Told(c.calls)
  {
    RouteInstalled(c);
    hide Allows, PathOf, Spill, Queue.Valid, ResponseContext.Valid, HeadOf, RequestContext.Barred, IsExempt;
    hide RequestContext.Framed, RequestContext.Gate, RequestContext.Handed, RequestContext.Routed, RouteOf;
  }

  /** A page below /app/, or an upload, for someone whose session vouches for the request. */
  lemma InvitedIn(c: RequestContext)
    requires c.open && c.Valid() && c.state > HEADER_DONE
    requires c.route(c.head.target) == RouteOf(INSTALLED, c.head.target) && Spill(PathOf(c.head.target)) == None
    requires
      || (Spelt(PathOf(c.head.target), "/app/") && c.head.verb == Get)
      || (Is(PathOf(c.head.target), "/api/upload.cgi") && c.head.verb == Post)
    requires Authorized(c.vouched, c.head.token, c.ipRemote)
    ensures c.calls != [] && c.calls[0] == Callback.HeadersReceived
    ensures c.state >= SENDING_HEADER && c.said >= 0 ==> c.result > 0 && Told(c.calls)
  {
    hide RequestContext.Valid, Allows, PathOf, Spill, RouteOf, Spelt, Is, Authorized, RequestContext.Barred, Told;
    hide Ignored;
    Taken(PathOf(c.head.target));
    VouchedFor(c);
    ReachesItsHandler(c);
  }

  lemma VouchedFor(c: RequestContext)
    requires Authorized(c.vouched, c.head.token, c.ipRemote)
    ensures !c.Barred(c.vouched)
  {
    hide Authorized, IsExempt;
  }

  // ---- the gate ----

  /** The path that a request asks for, without parameters. */
  function PathOf(target: seq<Byte>): (path: seq<Byte>)
    ensures NUL !in path
  {
    NoNul(target);
    BeforeQuestion(FullPath(target))
  }

  /** Nobody's session vouches for this request. */
  ghost predicate Unvouched(c: RequestContext, slots: seq<Session>)
    reads c`head
  {
    forall i | 0 <= i < |slots| :: !(Presents(c.head.token, slots[i]) && slots[i].loginIP == c.ipRemote)
  }

  /** The extension is one of those that are served to everyone. */
  predicate ServedToAll(ext: seq<Byte>) {
    exists k | 0 <= k < 11 :: Spelt(ext, SERVED[k])
  }

  /**
    With the installed table, a request is barred exactly when its path, decoded and without
    parameters, needs a session and has no run of 8 or more bytes behind a dot, its extension is not
    that of a style, a picture or a font, and the first session whose token it brings, if any, was
    not opened from its address.
   */
  lemma BarredExactly(c: RequestContext, slots: seq<Session>)
    requires c.open && c.Valid() && c.head.verb != NoMethod
    requires c.route(c.head.target) == RouteOf(INSTALLED, c.head.target)
    ensures var path := PathOf(c.head.target);
            c.Barred(slots) <==>
            && NeedsSession(path) && Spill(path) == None
            && !ServedToAll(Extension(path)) && !Authorized(slots, c.head.token, c.ipRemote)
  {
    hide Is, Spelt, FirstMatch, IsExempt, Queue.Valid, ResponseContext.Valid, HeadOf, Authorized, CString, Decode;
    hide Extension, Spill, RequestContext.Handed, NeedsSession, Allows, SourceOf, ServedToAll, FullPath;
    hide RequestContext.Framed, RequestContext.Answering, RequestContext.Gate, BeforeQuestion;
    var path := PathOf(c.head.target);
    InstalledAllows(path);
    InstalledAllows([]);
    NothingNeeds();
    NoNulBehind(path);
    Exempt(Extension(path));
  }

  lemma Exempt(ext: seq<Byte>)
    requires NUL !in ext
    ensures IsExempt(ext) <==> ServedToAll(ext)
  {
    ExemptExactly(ext);
    hide Spelt, IsExempt;
  }

  lemma NothingNeeds()
    ensures !NeedsSession([])
  {
  }

  lemma {:induction false} NoNulBehind(path: seq<Byte>)
    requires NUL !in path
    ensures BehindDot(path).Some? ==> NUL !in BehindDot(path).value
    ensures NUL !in Extension(path)
    decreases |path|
  {
    if path != [] {
      NoNulBehind(path[..|path| - 1]);
    }
  }

  lemma NoNul(target: seq<Byte>)
    ensures NUL !in BeforeQuestion(FullPath(target))
  {
    hide Decode, UpToVersion, SkipSpaces;
    var full := FullPath(target);
    assert BeforeQuestion(full) <= full;
  }

  /** Nobody gets by the gate without a session from his address, however he writes the path. */
  lemma ProtectedNeedsSession(c: RequestContext, slots: seq<Session>, e: Encoder, path: seq<Byte>, rest: seq<Byte>)
    requires c.open && c.Valid() && c.head.verb != NoMethod
    requires c.route(c.head.target) == RouteOf(INSTALLED, c.head.target)
    requires c.head.target == Encode(e, path) + (VERSION + rest) && |Encode(e, path)| <= PATH_SIZE - 2
    requires Sound(e) && !e.keeps(SPACE) && !e.keeps(NUL) && NUL !in path && QUESTION !in path
    requires NeedsSession(path) && Spill(path) == None && !ServedToAll(Extension(path)) && Unvouched(c, slots)
    ensures c.Barred(slots)
  {
    hide NeedsSession, ServedToAll, RequestContext.Valid, Authorized, Extension, BeforeQuestion, FullPath, Encode;
    hide RequestContext.Barred, Spill;
    EncodedPath(e, path, rest);
    BeforeQuestionLength(path);
    BarredExactly(c, slots);
    DeniedWithoutSession(slots, c.head.token, c.ipRemote);
  }

  /** Every page below /app/ is barred without a session, and no style, picture or font is. */
  lemma PagesBelowApp(c: RequestContext, slots: seq<Session>, front: seq<Byte>, ext: seq<Byte>)
    requires c.open && c.Valid() && c.head.verb != NoMethod
    requires c.route(c.head.target) == RouteOf(INSTALLED, c.head.target)
    requires PathOf(c.head.target) == front + [DOT] + ext && Simple(ext)
    requires Spelt(front + [DOT] + ext, "/app/") && Spill(front + [DOT] + ext) == None && Unvouched(c, slots)
    ensures Spelt(ext, "shtml") || Spelt(ext, "html") || Spelt(ext, "htm") ==> c.Barred(slots)
    ensures forall k | 0 <= k < 11 :: Spelt(ext, SERVED[k]) ==> !c.Barred(slots)
  {
    hide RequestContext.Valid, Authorized, BeforeQuestion, FullPath, RequestContext.Barred, Spill, Simple, Is;
    BarredExactly(c, slots);
    DeniedWithoutSession(slots, c.head.token, c.ipRemote);
    ExtensionIs(front, ext);
    if Spelt(ext, "shtml") || Spelt(ext, "html") || Spelt(ext, "htm") {
      assert NUL !in ext by {
        assert forall b | b in ext :: b in front + [DOT] + ext;
      }
      HtmlIsHtm(ext);
      PagesAreNotExempt(ext);
      Exempt(ext);
    }
    hide Spelt, Extension;
  }

  lemma HtmlIsHtm(ext: seq<Byte>)
    ensures Spelt(ext, "html") ==> Spelt(ext, "htm")
  {
    if Spelt(ext, "html") {
      assert "html"[0] == "htm"[0] && "html"[1] == "htm"[1] && "html"[2] == "htm"[2];
      assert Reads(ext[0], "html"[0]) && Reads(ext[1], "html"[1]) && Reads(ext[2], "html"[2]);
      hide Reads;
    }
  }

  /** So are both services below /api/. */
  lemma ServicesBelowApi(c: RequestContext, slots: seq<Session>)
    requires c.open && c.Valid() && c.head.verb != NoMethod
    requires c.route(c.head.target) == RouteOf(INSTALLED, c.head.target)
    requires var path := PathOf(c.head.target); Is(path, "/api/files.cgi") || Is(path, "/api/upload.cgi")
    requires Unvouched(c, slots)
    ensures c.Barred(slots)
  {
    hide RequestContext.Valid, Authorized, BeforeQuestion, FullPath, RequestContext.Barred, Spill, Is, Spelt;
    var path := PathOf(c.head.target);
    BarredExactly(c, slots);
    DeniedWithoutSession(slots, c.head.token, c.ipRemote);
    var front, ext := CgiRun(path, if Is(path, "/api/files.cgi") then "/api/files.cgi" else "/api/upload.cgi");
    RunSpills(front, ext);
    ExtensionIs(front, ext);
    PagesAreNotExempt(ext);
    Exempt(ext);
    hide Extension;
  }

  lemma CgiRun(path: seq<Byte>, name: string) returns (front: seq<Byte>, ext: seq<Byte>)
    requires Is(path, name) && (name == "/api/files.cgi" || name == "/api/upload.cgi") && NUL !in path
    ensures path == front + [DOT] + ext && DOT !in front && Simple(ext) && |ext| == 3 && Spelt(ext, "cgi")
    ensures NUL !in ext
  {
    var n := |name| - 4;
    front, ext := path[..n], path[n + 1..];
    forall k | 0 <= k < |path|
      ensures path[k] == DOT <==> k == n
      ensures k > n ==> path[k] != SLASH && path[k] != HASH
    {
      NameMarks(name, k);
      MarkReads(path[k], name[k]);
    }
    assert path[n] == DOT;
    assert path == front + [DOT] + ext;
    assert Reads(path[n + 1], name[n + 1]) && Reads(path[n + 2], name[n + 2]) && Reads(path[n + 3], name[n + 3]);
    assert name[n + 1] == 'c' && name[n + 2] == 'g' && name[n + 3] == 'i';
  }

  lemma NameMarks(name: string, k: nat)
    requires (name == "/api/files.cgi" || name == "/api/upload.cgi") && k < |name|
    ensures name[k] == '.' <==> k == |name| - 4
    ensures k > |name| - 4 ==> name[k] != '/' && name[k] != '#'
    ensures name[k] < 128 as char
  {
  }

  /** Marks have no other case. */
  lemma MarkReads(c: Byte, d: char)
    requires Reads(c, d) && d < 128 as char
    ensures (c == DOT <==> d == '.') && (c == SLASH <==> d == '/') && (c == HASH <==> d == '#')
  {
    UpperExactly(c, d);
    hide Reads;
  }

  /** A protected path whose last run is too long has no handler at all: "/app/a." and 8 bytes more. */
  lemma LongExtensionIsNotFound(run: seq<Byte>, target: seq<Byte>)
    requires Simple(run) && |run| == EXTENSION_SIZE && QUESTION !in run
    requires FullPath(target) == Ascii("/app/a") + [DOT] + run
    ensures NeedsSession(FullPath(target)) && RouteOf(INSTALLED, target) == Route(None, run)
  {
    hide FullPath, Spill, FirstMatch, BeforeQuestion;
    var path := FullPath(target);
    BeforeQuestionLength(path);
    assert path + [] == path;
    assert QUESTION !in Ascii("/app/a") && DOT !in Ascii("/app/a");
    RunOfEight(Ascii("/app/a"), run, []);
    StartsWithApp(path);
    NothingMatches();
  }

  lemma StartsWithApp(path: seq<Byte>)
    requires Ascii("/app/a") <= path
    ensures Spelt(path, "/app/")
  {
    assert forall k | 0 <= k < 5 :: path[k] == Ascii("/app/a")[k] && "/app/"[k] == "/app/a"[k];
  }

  lemma NothingMatches()
    ensures FirstMatch(INSTALLED, []) == None
  {
    hide FirstMatch;
  }

  /**
    Before the gate, a handler that wants them has got exactly the lines the server does not look at.
    After it, the handler of a barred request hears only that the request is cancelled; and nothing
    but the head is sent, unless a listing is asked for with GET, or a page with a range for which
    bytes are announced although no file is open.
   */
  lemma BarredGetsOnlyTheHead(c: RequestContext)
    requires c.open && c.Valid() && c.gated
    ensures c.result == CODE_REDIRECT && forall k | 0 <= k < |c.calls| :: c.calls[k] == Cancelled
    ensures c.handler.Some? && c.handed == if c.handler.value.perLine then Strays(c.parsed.lines) else []
    ensures
      || (c.handler.value.source == Listing && c.head.verb == Get)
      || (c.handler.value.source == WebFile && NoFileLength(c.head) != 0)
      || (&& c.rsp.blocks == []
          && c.rsp.base <= |c.rsp.pcb.wire| && c.rsp.bytesLeft <= c.rsp.sendBuffer.Length
          && c.rsp.pcb.wire[c.rsp.base..] + c.rsp.sendBuffer[..c.rsp.bytesLeft] == c.rsp.head)
  {
    hide RequestContext.Framed, RequestContext.Answering, Queue.Valid, HeadOf, Strays, Authorized, IsExempt;
    HeadBeforeBlocks(c);
    assert c.rsp.head + [] == c.rsp.head;
  }

  /** Nor does it hear anything but the end when the connection is closed on it. */
  lemma BarredHearsTheEnd(c: RequestContext)
    requires c.Valid() && c.gated
    ensures forall k | 0 <= k < |c.calls| :: c.calls[k] == Cancelled || c.calls[k] == AllSent || c.calls[k] == Finished
  {
    hide RequestContext.Framed, RequestContext.Answering, Queue.Valid, RequestContext.Known;
  }
}
