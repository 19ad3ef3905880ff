/** Requests for which the server does what one would not expect, written out. */
module Witnesses {
  import opened Bytes
  import opened Framing
  import opened HttpCore
  import opened InputQueue
  import opened Limits
  import opened RequestLine
  import opened Response
  import opened Routing
  import opened Strings
  import opened UrlCoding

  predicate Digit(c: Byte) {
    48 <= c <= 57
  }

  lemma NotNul(s: seq<Byte>)
    requires NUL !in s
    ensures CString(s) == s
  {
    CStringAt(s, |s|);
  }

  /** A line does not start like a name that differs from it at some letter. */
  lemma Differs(line: seq<Byte>, name: seq<Byte>, k: nat)
    requires NUL !in line && NUL !in name && k < |name| && k < |line| && Upper(line[k]) != Upper(name[k])
    ensures !StartsLike(line, name)
  {
    NotNul(line);
    NotNul(name);
  }

  /** A line starts like a name that it starts with. */
  lemma WholeName(line: seq<Byte>, name: seq<Byte>)
    requires name <= line && NUL !in line
    ensures StartsLike(line, name)
  {
    assert forall k | 0 <= k < |name| :: name[k] == line[k];
    NotNul(line);
    NotNul(name);
    hide CString;
  }

  // ---- the lines of a barred request reach the handler for uploads ----

  const X_FILE_NAME: seq<Byte> := [88, 45, 70, 105, 108, 101, 45, 78, 97, 109, 101, 58] // "X-File-Name:"

  /** The first letter X, and F the third, are enough to tell it from the lines the server looks at. */
  lemma FileNameIsStray(rest: seq<Byte>)
    requires NUL !in rest
    ensures !Recognized(X_FILE_NAME + rest)
  {
    var line := X_FILE_NAME + rest;
    assert NUL !in line && line[0] == 88 && line[2] == 70;
    hide StartsLike;
    OtherLetter(line);
    OtherLetters(line);
  }

  lemma OtherLetter(line: seq<Byte>)
    requires NUL !in line && |line| >= 3 && line[0] == 88
    ensures !StartsLike(line, CONTENT_LENGTH) && !StartsLike(line, CONNECTION) && !StartsLike(line, EXPECT)
    ensures !StartsLike(line, RANGE) && !StartsLike(line, COOKIE)
  {
    hide StartsLike;
    Differs(line, CONTENT_LENGTH, 0);
    Differs(line, CONNECTION, 0);
    Differs(line, EXPECT, 0);
    Differs(line, RANGE, 0);
    Differs(line, COOKIE, 0);
  }

  lemma OtherLetters(line: seq<Byte>)
    requires NUL !in line && |line| >= 3 && line[0] == 88 && line[2] == 70
    ensures !StartsLike(line, TRANSFER_ENCODING) && !StartsLike(line, IF_MODIFIED_SINCE)
    ensures !StartsLike(line, AUTH_TOKEN)
  {
    hide StartsLike;
    Differs(line, TRANSFER_ENCODING, 0);
    Differs(line, IF_MODIFIED_SINCE, 0);
    Differs(line, AUTH_TOKEN, 2);
  }

  /** "POST /api/upload.cgi HTTP/1.1" or the like. */
  lemma UploadRoute(rest: seq<Byte>)
    ensures RouteOf(INSTALLED, UPLOAD + (VERSION + rest)).handler == Some(UPLOAD_MAPPING)
  {
    UploadPath(rest);
    UploadFits();
    UploadMapping();
    hide FullPath, Spill, FirstMatch, BeforeQuestion;
  }

  predicate Ordinary(path: seq<Byte>) {
    SPACE !in path && NUL !in path && PERCENT !in path && QUESTION !in path
  }

  lemma UploadIsOrdinary()
    ensures Ordinary(UPLOAD)
  {
  }

  lemma UploadPath(rest: seq<Byte>)
    ensures FullPath(UPLOAD + (VERSION + rest)) == UPLOAD
  {
    UploadIsOrdinary();
    PlainPath(UPLOAD, rest);
  }

  lemma UploadFits()
    ensures BeforeQuestion(UPLOAD) == UPLOAD && Spill(UPLOAD) == None
  {
    UploadIsOrdinary();
    BeforeQuestionLength(UPLOAD);
    hide BeforeQuestion;
    UploadExtension();
  }

  lemma UploadExtension()
    ensures Spill(UPLOAD) == None
  {
    var front: seq<Byte> := [47, 97, 112, 105, 47, 117, 112, 108, 111, 97, 100];
    var run: seq<Byte> := [99, 103, 105];
    hide Spill, BehindDot;
    assert DOT !in front && Simple(run);
    RunSpills(front, run);
    assert UPLOAD == front + [DOT] + run;
  }

  lemma Apart(path: seq<Byte>, pattern: seq<Byte>, k: nat)
    requires k < |path| && k < |pattern| && Upper(path[k]) != Upper(pattern[k])
    ensures !Alike(path, pattern)
  {
  }

  lemma UploadApart()
    ensures !Alike(UPLOAD, SSDP) && !Alike(UPLOAD, AUTH) && !Alike(UPLOAD, FORM) && !Alike(UPLOAD, FILES)
    ensures Alike(UPLOAD, UPLOAD) && NUL !in UPLOAD
  {
    hide Alike;
    Apart(UPLOAD, SSDP, 1);
    Apart(UPLOAD, AUTH, 2);
    Apart(UPLOAD, FORM, 3);
    Apart(UPLOAD, FILES, 5);
    Itself(UPLOAD);
    UploadIsOrdinary();
  }

  lemma Itself(path: seq<Byte>)
    ensures Alike(path, path)
  {
  }

  lemma UploadMapping()
    ensures FirstMatch(INSTALLED, UPLOAD) == Some(UPLOAD_MAPPING)
  {
    AllClean();
    UploadApart();
    hide FirstMatch, Alike, Clean;
    var a, b, c, d, e, f :=
      [SSDP_MAPPING], [AUTH_MAPPING], [FORM_MAPPING], [FILES_MAPPING], [UPLOAD_MAPPING], [APP_MAPPING];
    FirstOfTwo(a + b + c + d + e, f, UPLOAD);
    FirstOfTwo(a + b + c + d, e, UPLOAD);
    FirstOfTwo(a + b + c, d, UPLOAD);
    FirstOfTwo(a + b, c, UPLOAD);
    FirstOfTwo(a, b, UPLOAD);
    FirstOfOne(SSDP_MAPPING, UPLOAD);
    FirstOfOne(AUTH_MAPPING, UPLOAD);
    FirstOfOne(FORM_MAPPING, UPLOAD);
    FirstOfOne(FILES_MAPPING, UPLOAD);
    FirstOfOne(UPLOAD_MAPPING, UPLOAD);
  }

  /** A file name sent for an upload is in the handler's hands although the request is barred. */
  lemma UploadHearsTheFileName(c: RequestContext, version: seq<Byte>, name: seq<Byte>)
    requires c.open && c.Valid() && c.gated && NUL !in name
    requires c.route(c.head.target) == RouteOf(INSTALLED, c.head.target)
    requires c.parsed.lines == [POST + (UPLOAD + (VERSION + version)), X_FILE_NAME + name]
    ensures c.handed == [X_FILE_NAME + name]
  {
    hide Recognized, RequestContext.Answering, RequestContext.Framed, Queue.Valid, RequestContext.Gate, Interpret;
    var lines := c.parsed.lines;
    UploadRoute(version);
    FileNameIsStray(name);
    TwoLines(lines[0], lines[1]);
    PostTarget(UPLOAD + (VERSION + version), lines[1]);
    hide RouteOf, HeadOf, Strays;
  }

  lemma TwoLines(a: seq<Byte>, b: seq<Byte>)
    ensures Strays([a, b]) == if Recognized(b) then [] else [b]
    ensures HeadOf([a, b]) == Interpret(Interpret(NO_HEAD, a), b)
  {
    hide Recognized, Interpret;
    OneMoreLine([], a);
    OneMoreLine([a], b);
    assert [] + [a] == [a] && [a] + [b] == [a, b];
    assert Strays([]) == [] && HeadOf([]) == NO_HEAD;
  }

  lemma PostTarget(target: seq<Byte>, b: seq<Byte>)
    ensures var h := Interpret(Interpret(NO_HEAD, POST + target), b);
            h.target == target && h.verb == Post
  {
    var a := POST + target;
    assert a[0] == POST[0] != GET[0];
    assert a[..5] == POST && a[5..] == target;
    FirstLineSettles(Interpret(NO_HEAD, a), b);
    hide StartsLike;
  }

  // ---- content for a barred request ----

  const EMPTY_LISTING: seq<Byte> := // {"result":0, "data":[]}
    [123, 34, 114, 101, 115, 117, 108, 116, 34, 58, 48, 44, 32, 34, 100, 97, 116, 97, 34, 58, 91, 93, 125]

  /** What the handler for directory listings answers first when there is no such directory; it waits for room. */
  function FilesAnswer(verb: Method, maxSize: int): Answer {
    if verb != Get then Answer(-1, [], 0, 0)
    else if maxSize > 200 then Answer(|EMPTY_LISTING|, EMPTY_LISTING, STAGE_END, 0)
    else Answer(0, [], 0, 0)
  }

  /** The listing is loaded for a barred request as for any other, once enough of the head is gone. */
  method ListingForAnyone(c: RequestContext, caller: Caller)
    requires c.Live() && c.gated && c.state == SENDING_BODY && c.rsp.sending && !c.rsp.finished
    requires c.handler.Some? && c.handler.value.source == Listing && c.head.verb == Get && c.rsp.Room() > 200
    requires c.rsp.First()
    modifies c`state, c`result, c`calls, c.rsp`bytesLeft, c.rsp`stage, c.rsp`operIndex, c.rsp`total2Send
    modifies c.rsp`body, c.rsp`blocks, c.rsp`finished, c.rsp.sendBuffer
    modifies c.rsp.pcb`wire, c.rsp.pcb`refused, c.rsp.pcb`room
    ensures c.rsp.blocks == old(c.rsp.blocks) + [EMPTY_LISTING]
  {
    hide RequestContext.Known, RequestContext.Framed, Queue.Valid, ResponseContext.Valid;
    var verb := c.head.verb;
    var read: Handler :=
      (maxSize, chunked, first) => if first then FilesAnswer(verb, maxSize) else Answer(-1, [], 0, 0);
    assert Obeys(read);
    ghost var done, failed;
    done, failed := c.SendBody(caller, read);
  }

  /**
    What WEB_ReadContent answers at first when no file is open and the range announces `length` bytes:
    so many bytes from address zero on.
   */
  function NoFileAnswer(memory: seq<Byte>, length: nat, maxSize: int): Answer
    requires length <= |memory|
  {
    if length == 0 || maxSize < 1 then Answer(-1, [], STAGE_END, 0)
    else
      var n := if length < maxSize then length else maxSize;
      Answer(n, memory[..n], if n == length then STAGE_END else 1, n)
  }

  lemma NoFileObeys(memory: seq<Byte>, length: nat, read: Handler)
    requires length <= |memory|
    requires forall maxSize: int, chunked: bool, first: bool ::
               read(maxSize, chunked, first) == NoFileAnswer(memory, length, if chunked then maxSize - 5 else maxSize)
    ensures Obeys(read)
  {
    forall maxSize: int, chunked: bool, first: bool
      ensures Honest(read(maxSize, chunked, first), maxSize, chunked, first)
    {
    }
  }

  /** A barred request for a page, with such a range, gets what stands at address zero. */
  method RangeForAnyone(c: RequestContext, caller: Caller, memory: seq<Byte>)
    requires c.Live() && c.gated && c.state == SENDING_BODY && c.rsp.sending && !c.rsp.finished && !c.rsp.chunked
    requires c.handler.Some? && c.handler.value.source == WebFile && 0 < NoFileLength(c.head) <= |memory|
    requires c.rsp.Room() >= 1
    modifies c`state, c`result, c`calls, c.rsp`bytesLeft, c.rsp`stage, c.rsp`operIndex, c.rsp`total2Send
    modifies c.rsp`body, c.rsp`blocks, c.rsp`finished, c.rsp.sendBuffer
    modifies c.rsp.pcb`wire, c.rsp.pcb`refused, c.rsp.pcb`room
    ensures var n := if NoFileLength(c.head) < old(c.rsp.Room()) then NoFileLength(c.head) else old(c.rsp.Room());
            c.rsp.blocks == old(c.rsp.blocks) + [memory[..n]]
  {
    hide RequestContext.Known, RequestContext.Framed, Queue.Valid, ResponseContext.Valid;
    var length: nat := NoFileLength(c.head);
    var read: Handler :=
      (maxSize, chunked, first) => NoFileAnswer(memory, length, if chunked then maxSize - 5 else maxSize);
    NoFileObeys(memory, length, read);
    ghost var done, failed;
    done, failed := c.SendBody(caller, read);
  }

  /** "Range: bytes=a-b" with single digits: the first is lost, and the dash makes the second negative. */
  lemma OrdinaryRange(a: Byte, b: Byte)
    requires Digit(a) && Digit(b)
    ensures var n := b as int - 48;
            RangeOf(RANGE + [SPACE] + BYTES_EQUAL + [a, DASH, b]) == Range(0 - n, n + 1)
  {
    var line := RANGE + [SPACE] + BYTES_EQUAL + [a, DASH, b];
    var p, q: seq<Byte> := BYTES_EQUAL + [a, DASH, b], [DASH, b];
    assert line[6..] == [SPACE] + p && ([SPACE] + p)[1..] == p;
    assert p[..6] == BYTES_EQUAL && p[7..] == q && q[1..] == [b] && [b][1..] == [];
    assert ([SPACE] + p)[0..6][0] == SPACE && p[0..6] == BYTES_EQUAL;
    assert From([SPACE] + p, BYTES_EQUAL) == Some(p);
    assert From(q, [DASH]) == Some(q);
    assert Digits(0, [b]) == b as int - 48;
  }

  lemma RangeLine(h: Head, line: seq<Byte>)
    requires h.verb != NoMethod && StartsLike(line, RANGE) && NUL !in line
    requires !StartsLike(line, CONTENT_LENGTH) && !StartsLike(line, CONNECTION)
    ensures Interpret(h, line) == h.(rangeFrom := RangeOf(line).from, rangeTo := RangeOf(line).to)
  {
    NotNul(line);
    hide StartsLike, RangeOf, Atol, ValueOf, Contains, CString;
  }

  lemma OrdinaryRangeName(line: seq<Byte>, a: Byte, b: Byte)
    requires Digit(a) && Digit(b) && line == RANGE + [SPACE] + BYTES_EQUAL + [a, DASH, b]
    ensures NUL !in line && StartsLike(line, RANGE)
    ensures !StartsLike(line, CONTENT_LENGTH) && !StartsLike(line, CONNECTION)
  {
    hide StartsLike;
    assert NUL !in line && line[0] == RANGE[0];
    Differs(line, CONTENT_LENGTH, 0);
    Differs(line, CONNECTION, 0);
    WholeName(line, RANGE);
  }

  /** This is the range the server keeps. */
  lemma OrdinaryRangeLine(h: Head, a: Byte, b: Byte)
    requires h.verb != NoMethod && Digit(a) && Digit(b)
    ensures var h' := Interpret(h, RANGE + [SPACE] + BYTES_EQUAL + [a, DASH, b]);
            h'.rangeFrom == 48 - b as int && h'.rangeTo == b as int - 47
  {
    var line := RANGE + [SPACE] + BYTES_EQUAL + [a, DASH, b];
    hide StartsLike, RangeOf, Interpret;
    OrdinaryRangeName(line, a, b);
    RangeLine(h, line);
    OrdinaryRange(a, b);
  }

  /** It announces b bytes of a file that is not open. */
  lemma OrdinaryRangeAnnounces(h: Head, b: Byte)
    requires Digit(b) && h.rangeFrom == 48 - b as int && h.rangeTo == b as int - 47
    ensures NoFileLength(h) == b as int - 48
  {
  }

  // ---- a body that nobody reads ----

  const ONE_BYTE: seq<Byte> := CONTENT_LENGTH + [49] // "Content-Length:1"

  lemma OneByteBody(target: seq<Byte>)
    ensures HeadOf([POST + target, ONE_BYTE]).contentLength == 1
  {
    hide Interpret, HeadOf, Strays;
    TwoLines(POST + target, ONE_BYTE);
    PostTarget(target, ONE_BYTE);
    PostVerb(target);
    OneByteLine(Interpret(NO_HEAD, POST + target));
  }

  lemma PostVerb(target: seq<Byte>)
    ensures Interpret(NO_HEAD, POST + target).verb == Post
  {
    assert (POST + target)[0] == POST[0] != GET[0];
  }

  lemma OneByteLine(h: Head)
    requires h.verb != NoMethod
    ensures Interpret(h, ONE_BYTE).contentLength == 1
  {
    ContentLengthLine();
    hide StartsLike, Atol, RangeOf, ValueOf, Contains, CString;
  }

  lemma ContentLengthLine()
    ensures StartsLike(ONE_BYTE, CONTENT_LENGTH) && Atol(ONE_BYTE[15..]) == 1
  {
    hide SameNoCase, Atol;
    WholeName(ONE_BYTE, CONTENT_LENGTH);
    assert ONE_BYTE[15..] == [49];
    AtolOfOne();
  }

  lemma AtolOfOne()
    ensures Atol([49]) == 1
  {
    assert [49 as Byte][1..] == [];
    assert Digits(0, [49]) == 1;
  }

  /** The one byte of the body, left unread, is the beginning of the next request. */
  lemma UnreadByte(past: seq<Request>, target: seq<Byte>, x: Byte)
    ensures var r := Request([POST + target, ONE_BYTE], []);
            && FeedAll(Position(HEADER_DONE, past, r, 0), [x])
               == Progress(past + [r.(body := [x])], NOTHING, InHead([]))
            && FeedAll(Position(BODY_DONE, past, r, 0), [x]) == Progress(past + [r], NOTHING, InHead([x]))
  {
    var r := Request([POST + target, ONE_BYTE], []);
    OneByteBody(target);
    hide HeadOf;
    assert [x][1..] == [] && [] + [x] == [x];
    FeedBody(Progress(past, r, InBody(1)), [x]);
    FeedPartial(Progress(past + [r], NOTHING, InHead([])), [], [x]);
  }

  // ---- the end of a head that is never sent ----

  /**
    A 404 on a connection that is kept: if some of the head is still buffered when the first bytes of it
    are acknowledged, and the stack has more room than that, the rest is dropped, and the response
    to the next request is written behind what is there.
   */
  method NotFoundIsCut(c: RequestContext, read: Handler) returns (ghost stack: Stack)
    requires Obeys(read) && c.open && c.Live() && c.state == SENDING_HEADER && c.rsp.sending
    requires c.result == CODE_NOT_FOUND && c.rsp.bytesLeft > 0
    requires c.head.keepAlive && !c.peerClosing
    modifies c, c.rsp, c.rsp.sendBuffer
    modifies c.rsp.pcb`wire, c.rsp.pcb`refused, c.rsp.pcb`room
    modifies c.inq`length, c.inq`consumed, c.inq`chain, c.inq`totLen, c.inq`offset, c.inq`freed, c.inq.buffer
    ensures old(c.rsp.bytesLeft < c.rsp.pcb.room) ==>
              && c.open && c.Valid() && c.state == IDLE && c.past == old(c.past) + [old(c.parsed)]
              && c.rsp.pcb.wire == old(c.rsp.pcb.wire) && c.rsp.base == |c.rsp.pcb.wire| && c.rsp.bytesLeft == 0
              && old(c.rsp.base + |c.rsp.head| == |c.rsp.pcb.wire| + c.rsp.bytesLeft)
  {
    hide RequestContext.Known, RequestContext.Framed, Queue.Valid, RequestContext.Answers;
    ghost var done;
    HeadCounted(c);
    c.InResponse();
    done, stack := c.HttpResponseProc(Sent, read);
    if c.state == REQUEST_END {
      c.EndOfRequest();
    }
  }

  lemma HeadCounted(c: RequestContext)
    requires c.Live() && c.rsp.sending && c.state == SENDING_HEADER
    ensures c.rsp.stage == 0 && c.rsp.base + |c.rsp.head| == |c.rsp.pcb.wire| + c.rsp.bytesLeft
  {
    hide RequestContext.Known, RequestContext.Framed, Queue.Valid;
    c.rsp.NothingLoaded();
  }

  /** And of a barred request whose handler has nothing to say: what the stack has no room for is dropped at once. */
  method BarredIsCut(c: RequestContext, caller: Caller, read: Handler) returns (ghost stack: Stack)
    requires Obeys(read) && c.Live() && c.gated && !c.rsp.sending && !c.HasContent()
    modifies c`state, c`result, c`calls, c.rsp`bytesLeft, c.rsp`head, c.rsp`stage, c.rsp`operIndex, c.rsp`sending
    modifies c.rsp`total2Send, c.rsp`body, c.rsp`blocks, c.rsp`finished, c.rsp.sendBuffer
    modifies c.rsp.pcb`wire, c.rsp.pcb`refused, c.rsp.pcb`room
    ensures stack.headLeft > 0 ==>
              c.state == REQUEST_END && c.Ended() && c.rsp.bytesLeft == stack.headLeft
  {
    hide RequestContext.Known, RequestContext.Framed, Queue.Valid, RequestContext.Says;
    c.NothingToSay(read);
    ghost var done;
    done, stack := c.HttpResponseProc(caller, read);
  }
}
