/**
  A connection: how the bytes that arrive become requests, and how each request gets its response.
  Every method is one of the server's callbacks or a part of one.
 */
module HttpCore {
  import opened Bytes
  import opened Framing
  import opened Lwip
  import opened InputQueue
  import opened Limits
  import opened Response
  import opened Routing
  import opened Sessions
  import SsiScanner
  import W = WebContent

  const IDLE := 0
  const HEADER_RECEIVING := 1
  const HEADER_DONE := 2
  const BODY_RECEIVING := 7
  const BODY_DONE := 8
  const SENDING_HEADER := 9
  const SENDING_BODY := 10
  const REQUEST_END := 11

  const CODE_OK := 200
  const CODE_NOT_FOUND := -404
  const CODE_REDIRECT := -307
  const ABORT := -500

  /** Calls into the handler of a request. */
  datatype Callback = HeadersReceived | ContentReceived(size: nat) | RequestReceived | Cancelled | AllSent | Finished

  /** What the stack did in one event: how many bytes of a new head it had no room for, and whether a write failed. */
  datatype Stack = Stack(headLeft: nat, failed: bool)

  /**
    What is due when an event finds a response: it has not begun, or what is buffered goes out first, or
    nothing happens, or it ends, or the handler's answer is loaded and sent.
   */
  datatype Turn = Opens | Flushes | Rests | Ends | Loads(answer: Answer)

  /** Where a response stands. */
  datatype Standing = Standing(state: nat, blocks: seq<seq<Byte>>, stage: nat, index: nat, left: nat)

  /** A connection in the middle of a response: `keeps` says that it will be kept for another request. */
  datatype Midway =
    Midway(past: seq<Request>, parsed: Request, statuses: seq<int>, result: int, keeps: bool, at: Standing, room: nat)

  /** A handler has been asked about the head, and has been offered nothing but content since. */
  ghost predicate Begun(calls: seq<Callback>) {
    calls != [] && calls[0] == Callback.HeadersReceived && forall k | 0 < k < |calls| :: calls[k].ContentReceived?
  }

  /** A handler has heard nothing but that requests are cancelled. */
  ghost predicate Ignored(calls: seq<Callback>) {
    forall k | 0 <= k < |calls| :: calls[k] == Cancelled
  }

  /** More calls have been made, and none of them says that the request is cancelled. */
  ghost predicate Adds(was: seq<Callback>, now: seq<Callback>) {
    was <= now && forall k | |was| <= k < |now| :: now[k] != Cancelled
  }

  lemma AddsAfter(was: seq<Callback>, done: bool, now: seq<Callback>)
    requires Adds(if done then was + [AllSent] else was, now)
    ensures Adds(was, now)
  {
  }

  lemma AddsNothing(was: seq<Callback>, done: bool)
    ensures Adds(was, if done then was + [AllSent] else was)
  {
  }

  lemma OneMoreOffer(calls: seq<Callback>, size: nat)
    requires Begun(calls)
    ensures Begun(calls + [ContentReceived(size)]) && (calls + [ContentReceived(size)])[0] == HeadersReceived
  {
  }

  lemma TellingIt(calls: seq<Callback>)
    requires Begun(calls)
    ensures Told(calls + [RequestReceived]) && (calls + [RequestReceived])[0] == HeadersReceived
  {
    assert (calls + [RequestReceived])[..|calls|] == calls;
  }

  /** And then it has been told that the request is complete. */
  ghost predicate Told(calls: seq<Callback>) {
    calls != [] && Begun(calls[..|calls| - 1]) && calls[|calls| - 1] == Callback.RequestReceived
  }

  /** How an iteration of the receiving loop ends. */
  datatype Next = Again | Stop | Leave

  /** Where the one-pass reader stands when the server is in a given state. */
  function Position(state: nat, past: seq<Request>, parsed: Request, left: int): Progress {
    if state < HEADER_DONE then Progress(past, parsed, InHead([]))
    else if state == HEADER_DONE then EndOfLine(Progress(past, parsed, InHead([])), [])
    else if state < BODY_DONE then Progress(past, parsed, InBody(if left > 0 then left else 0))
    else Progress(past + [parsed], NOTHING, InHead([]))
  }

  /** The length WEB_AppendHeaders arrives at when no file is open. */
  function NoFileLength(h: Head): int {
    if h.rangeTo > h.rangeFrom then W.RangeSize(h.rangeFrom, h.rangeTo, 0) else 0
  }

  /** And what WEB_ReadContent then answers, if that is nothing. */
  function NoFileSays(maxSize: int): Answer {
    var r := W.PlainAnswer([], W.View(0, 0, 0, SsiScanner.Literal), if maxSize > 0 then maxSize else 0);
    Answer(r.0, r.1, r.2.stage, r.2.index)
  }

  class RequestContext {
    const pcb: Pcb
    const inq: Queue
    const rsp: ResponseContext
    const sessions: SessionTable
    const ipRemote: nat
    const route: seq<Byte> -> Route

    var open: bool
    var peerClosing: bool
    var state: nat
    var result: int
    var head: Head
    var contentReceived: nat
    var handler: Option<Mapping>
    var options: Options
    var extension: seq<Byte>
    var authorized: int
    var fileOpen: bool

    // the requests answered so far, and what has been taken in of the current one
    ghost var past: seq<Request>
    ghost var parsed: Request
    // the sessions there were when the head was complete; whether the request needed one and had none;
    // the calls made to its handler
    ghost var vouched: seq<Session>
    ghost var gated: bool
    ghost var calls: seq<Callback>
    // the result its handler has set last, how many bytes of content it has taken, and whether it has
    // taken none of what it was offered last
    ghost var said: int
    ghost var taken: nat
    ghost var declined: bool
    // the line for which a head was refused, and the results of the requests that have ended
    ghost var bad: Option<seq<Byte>>
    ghost var statuses: seq<int>
    // the header lines handed to the handler, which happens before the gate
    ghost var handed: seq<seq<Byte>>
    // how many bytes of the line buffer are known to hold no line break
    ghost var ahead: nat
    // a request with a body has been answered without reading the body; a handler has taken bytes that
    // are not the body's
    ghost var turnedAway: bool
    ghost var overrun: bool

    /** A context taken for an accepted connection. */
    constructor (pcb: Pcb, sessions: SessionTable, ipRemote: nat, route: seq<Byte> -> Route)
      requires pcb.wire == [] && pcb.acked == 0 && pcb.credit == 0
      ensures this.pcb == pcb && this.sessions == sessions && this.ipRemote == ipRemote && this.route == route
      ensures Valid() && open && fresh(inq) && fresh(inq.buffer) && fresh(rsp) && fresh(rsp.sendBuffer)
    {
      this.pcb, this.sessions, this.ipRemote, this.route := pcb, sessions, ipRemote, route;
      hide Barred, Queue.Valid, ResponseContext.Quiet, Valid;
      inq := new Queue(pcb);
      rsp := new ResponseContext(pcb);
      open, peerClosing, state, result, head := true, false, IDLE, 0, NO_HEAD;
      contentReceived, handler, options, extension := 0, None, Options(false, false, false, false), [];
      authorized, fileOpen := 0, false;
      past, parsed, gated, calls, vouched := [], NOTHING, false, [], [];
      handed, ahead, turnedAway, overrun, said, taken, declined := [], 0, false, false, 0, 0, false;
      bad, statuses := None, [];
      new;
      Opening();
    }

    /** The handler is the one for the path of the request. */
    ghost predicate Routed()
      reads this`head, this`handler, this`options, this`extension
    {
      head.verb != NoMethod ==>
        var r := route(head.target);
        && handler == r.handler && extension == r.extension
        && (handler.Some? ==> options == handler.value.options.(chunked := options.chunked))
    }

    /** Chunks are made as the handler asks for it, and of a file also if it is a template. */
    ghost predicate Chunking()
      reads this`state, this`handler, this`options, rsp`chunked
    {
      handler.Some? ==>
        && (state > HEADER_DONE ==> rsp.chunked == options.chunked)
        && (state < BODY_DONE || handler.value.source != WebFile || handler.value.options.chunked ==>
              options.chunked == handler.value.options.chunked)
    }

    /** The request is for its handler: it passes the gate, and its method is one that the handler takes. */
    ghost predicate Meant()
      reads this`handler, this`options, this`gated, this`head
    {
      handler.Some? && !gated && ((head.verb == Get && options.get) || (head.verb == Post && options.post))
    }

    /**
      The handler hears first of the head of a request that is meant for it, then of the content, and
      before it is asked for a response, that the request is complete; of other requests nothing.
     */
    ghost predicate Heard()
      reads this`handler, this`options, this`gated, this`head, this`extension, this`calls, this`state, this`result
      reads this`said
    {
      state > HEADER_DONE ==>
        && (if Meant() then calls != [] && calls[0] == Callback.HeadersReceived else Ignored(calls))
        && (state == BODY_RECEIVING ==> Meant() && result == said && (result >= 0 ==> Begun(calls)))
        && (state >= SENDING_HEADER ==> Answered())
    }

    /** The status is the handler's, and 200 if it has set none; other requests are redirected or refused. */
    ghost function Status(): int
      reads this`handler, this`options, this`gated, this`head, this`extension, this`said
    {
      if Meant() then if said == 0 then CODE_OK else said
      else Refusal()
    }

    ghost function Refusal(): int
      reads this`handler, this`gated, this`head, this`extension
    {
      if gated || (handler.None? && !IsExempt(extension)) then CODE_REDIRECT
      else if head.verb == Get then CODE_NOT_FOUND
      else ABORT
    }

    /** Only a handler that has been told of a complete request has it answered without an error. */
    ghost predicate Answered()
      reads this`handler, this`options, this`gated, this`head, this`extension, this`calls, this`result, this`said
    {
      result == Status() && (result >= 0 ==> Told(calls))
    }

    /** The head has no lines, or one that cannot be accepted. */
    ghost predicate Malformed()
      reads this`parsed, this`bad
    {
      bad.Some? &&
      if bad.value == [] then HeadOf(parsed.lines).verb == NoMethod else !Acceptable(HeadOf(parsed.lines), bad.value)
    }

    /** A request to post something where nothing can be posted. */
    ghost predicate Unwanted()
      reads this`parsed
    {
      var h := HeadOf(parsed.lines);
      h.verb == Post && !(route(h.target).handler.Some? && route(h.target).handler.value.options.post)
    }

    /** Only such requests and the handler can bring about a fatal error. */
    ghost predicate Fatal()
      reads this`parsed, this`bad, this`said
    {
      Malformed() || Unwanted() || said <= ABORT
    }

    /** Before the request is complete, only a bad head and the handler. */
    ghost predicate Fault()
      reads this`parsed, this`bad, this`state, this`result, this`said
    {
      if state <= HEADER_DONE then Malformed() else result == said
    }

    /** A handler that wants them has got exactly the lines the server does not look at. */
    ghost predicate Handed()
      reads this`handler, this`parsed, this`handed
    {
      handed == if handler.Some? && handler.value.perLine then Strays(parsed.lines) else []
    }

    ghost predicate InHeadState()
      reads this`head, this`parsed, this`handler, this`handed, this`options
    {
      && (handler.Some? ==> options.chunked == handler.value.options.chunked)
      && head == HeadOf(parsed.lines) && parsed.body == [] && Handed()
      && (parsed.lines == [] <==> head.verb == NoMethod)
    }

    /** Every byte so far has been read as what it is. */
    ghost predicate Exact()
      reads this`turnedAway, this`overrun
    {
      !turnedAway && !overrun
    }

    /** The beginning of a line that is longer than half the line buffer. */
    ghost function Front(): seq<Byte>
      reads this`ahead, inq`length, inq.buffer
    {
      if ahead <= inq.length <= inq.buffer.Length then inq.buffer[..ahead] else []
    }

    /**
      Reading in one go, without the queue, gives the requests answered, the lines and the body bytes
      taken in, and the state.
     */
    ghost predicate Framed()
      reads this`state, this`past, this`parsed, this`head, this`contentReceived, this`ahead, this`turnedAway
      reads this`overrun, inq`consumed, inq`length, inq.buffer
    {
      && ahead <= inq.length && ahead <= MAX_REQ_BUF_SIZE / 2 && NoBreak(Front())
      && (state >= HEADER_DONE ==> ahead == 0)
      && (Exact() ==>
            if state < HEADER_DONE then
              FeedAll(OUTSET, inq.consumed + Front()) == Progress(past, parsed, InHead(Front()))
            else
              && FeedAll(OUTSET, inq.consumed) == Position(state, past, parsed, head.contentLength - contentReceived)
              && (state == BODY_RECEIVING ==> contentReceived < head.contentLength))
    }

    /** The parts of a connection belong together. */
    ghost predicate Wired() {
      inq.pcb == pcb && rsp.pcb == pcb && inq.buffer != rsp.sendBuffer
    }

    /** What is known about the request: nothing much while its head is still coming. */
    ghost predicate Known()
      reads this`state, this`result, this`head, this`parsed, this`contentReceived, this`handler, this`options
      reads this`extension, this`calls, this`fileOpen, this`gated, this`vouched, this`handed, this`said
    {
      && head == HeadOf(parsed.lines) && Routed() && Handed() && Heard()
      && (parsed.lines == [] <==> head.verb == NoMethod)
      && (state <= HEADER_DONE ==>
            && parsed.body == [] && contentReceived == 0
            && result == 0 && calls == [] && !fileOpen && !gated)
      && (state >= HEADER_DONE ==> head.verb != NoMethod)
      && (state == BODY_RECEIVING ==> handler.Some? && !gated)
      && (state <= HEADER_DONE || state == BODY_RECEIVING || BODY_DONE <= state <= SENDING_BODY)
      && (state >= SENDING_HEADER ==> result != 0)
      && (state > HEADER_DONE ==> gated == Barred(vouched))
    }

    /** The response exists, and has a head, only from when its request is complete. */
    ghost predicate Answering()
      reads this`state, rsp, rsp.sendBuffer, rsp.pcb`wire, rsp.pcb`acked
    {
      && rsp.Valid() && (rsp.finished <==> rsp.stage == STAGE_END)
      && (if rsp.sending then rsp.head != [] && state >= SENDING_HEADER
          else rsp.Quiet() && state <= SENDING_HEADER)
      && (state == SENDING_HEADER ==> rsp.blocks == [])
    }

    /** There is a handler with a callback for content. */
    predicate Asked()
      reads this`handler
    {
      handler.Some? && handler.value.source != NoContent
    }

    /**
      What the handler answers when it is asked: a listing is made for GET only, and of a page for which
      no file is open, so many bytes are there as the head announces.
     */
    function Says(read: Handler): Handler
      reads this`handler, this`fileOpen, this`head
    {
      if handler.None? then read
      else match handler.value.source
        case NoContent => read
        case Listing => if head.verb == Get then read else (maxSize, chunked, first) => Answer(-1, [], 0, 0)
        case WebFile =>
          if fileOpen || NoFileLength(head) != 0 then read else (maxSize, chunked, first) => NoFileSays(maxSize)
    }

    /** So it has something to say only if this holds. */
    predicate HasContent()
      reads this`handler, this`fileOpen, this`head
    {
      handler.Some? &&
      match handler.value.source
      case NoContent => false
      case Listing => head.verb == Get
      case WebFile => fileOpen || NoFileLength(head) != 0
    }

    lemma NothingToSay(read: Handler)
      ensures !HasContent() && Asked() ==>
                forall maxSize, chunked, first :: Says(read)(maxSize, chunked, first).size < 0
      ensures HasContent() ==> Asked() && Says(read) == read
      ensures Obeys(read) ==> Obeys(Says(read))
    {
    }

    /** After the gate the handler hears nothing of a barred request but how it ends. */
    ghost predicate Discreet()
      reads this`gated, this`calls
    {
      gated ==> forall k | 0 <= k < |calls| :: calls[k] == Cancelled || calls[k] == AllSent || calls[k] == Finished
    }

    ghost predicate OnlyCancelled()
      reads this`gated, this`calls
    {
      gated ==> Ignored(calls)
    }

    /**
      The gate: a request without the session it needs is answered with a redirect; its handler hears
      nothing of it but single lines and that it is cancelled, and only if it has content without
      having opened a file is anything but the head sent.
     */
    ghost predicate Gate()
      reads this`gated, this`state, this`result, this`calls, this`fileOpen, this`handler, this`head, rsp`blocks
    {
      && OnlyCancelled() && (!HasContent() ==> rsp.blocks == [])
      && (gated ==> !fileOpen && state >= SENDING_HEADER && result == CODE_REDIRECT)
    }

    /** So it stays up to the end of the request, when a handler that had content hears that all is sent. */
    ghost predicate Shut()
      reads this`gated, this`calls, this`fileOpen, this`handler, this`head, rsp`blocks
    {
      Discreet() && (!HasContent() ==> rsp.blocks == [] && OnlyCancelled())
    }

    lemma Unbarred()
      requires !gated
      ensures OnlyCancelled() && Discreet()
    {
    }

    lemma GateShuts()
      requires Gate()
      ensures Shut() && Discreet()
    {
    }

    ghost predicate Live()
      reads this, inq, inq.buffer, inq.pcb`credit, rsp, rsp.sendBuffer, rsp.pcb`wire, rsp.pcb`acked
    {
      Wired() && inq.Valid() && Known() && Framed() && Answering() && Gate() && Chunking()
    }

    // ---- the lines of a head ----

    /** The first line finds the handler, the other lines add up. */
    method TakeLine(line: seq<Byte>) returns (ok: bool)
      requires line != [] && InHeadState() && Routed()
      modifies this`head, this`handler, this`options, this`extension, this`result, this`parsed, this`handed, this`bad
      ensures ok <==> Acceptable(old(head), line)
      ensures InHeadState() && Routed()
      ensures ok ==> result == old(result) && parsed.lines == old(parsed.lines) + [line] && head.verb != NoMethod
      ensures !ok ==> result == ABORT && parsed == old(parsed) && Malformed()
    {
      hide Interpret, Acceptable, HeadOf, Recognized, Strays;
      NoStrays();
      if !Acceptable(head, line) {
        result, bad := ABORT, Some(line);
        return false;
      }
      FirstLineSettles(head, line);
      OneMoreLine(parsed.lines, line);
      var first := head.verb == NoMethod;
      head := Interpret(head, line);
      if first {
        var r := route(head.target);
        extension, handler := r.extension, r.handler;
        if handler.Some? {
          options := handler.value.options;
        }
      } else if !Recognized(line) {
        HeaderReceived(line);
      }
      parsed := parsed.(lines := parsed.lines + [line]);
      return true;
    }

    lemma NoStrays()
      ensures Strays([]) == []
    {
    }

    /** A line the server does not look at may interest the handler. */
    method HeaderReceived(line: seq<Byte>)
      modifies this`handed
      ensures handed == if handler.Some? && handler.value.perLine then old(handed) + [line] else old(handed)
    {
      if handler.Some? && handler.value.perLine {
        handed := handed + [line];
      }
    }

    /** The empty line: the response starts from scratch. */
    method EndHead()
      requires rsp.Quiet()
      requires InHeadState()
      modifies this`state, this`result, this`authorized, this`bad, rsp, rsp.sendBuffer
      ensures rsp.Quiet() && state == HEADER_DONE
      ensures if head.verb == NoMethod then result == ABORT && Malformed() else result == old(result)
    {
      hide HeadOf, Acceptable, Handed, ResponseContext.WireOrder, ResponseContext.Coded;
      if head.verb == NoMethod {
        result, bad := ABORT, Some([]);
      }
      authorized := 0;
      rsp.Start();
      state := HEADER_DONE;
    }

    /**
      Finds the lines in the line buffer and takes them one by one, up to the empty line.  The result
      is how many bytes that was; `p` is where the one-pass reader stands, `ahead` bytes into the buffer.
     */
    method ParseLines(buf: seq<Byte>, ghost p: Progress) returns (nLinePos: nat)
      requires 2 <= |buf| <= MAX_REQ_BUF_SIZE && state == HEADER_RECEIVING && result >= 0
      requires ahead <= |buf| && NoBreak(buf[..ahead]) && p == Progress(past, parsed, InHead(buf[..ahead]))
      requires rsp.Quiet() && InHeadState() && Routed()
      modifies this`state, this`result, this`authorized, this`head, this`handler, this`options, this`extension
      modifies this`parsed, this`handed, this`bad, rsp, rsp.sendBuffer
      ensures rsp.Quiet() && InHeadState() && Routed() && nLinePos <= |buf|
      ensures state == HEADER_RECEIVING || state == HEADER_DONE
      ensures result == old(result) || (result == ABORT && Malformed())
      ensures state == HEADER_DONE ==> nLinePos > 0 && (result >= 0 ==> head.verb != NoMethod)
      ensures if nLinePos == 0 then parsed == old(parsed) else ahead < nLinePos
      ensures result >= 0 && nLinePos > 0 ==>
                FeedAll(p, buf[ahead..nLinePos]) == Position(state, past, parsed, 0)
      ensures result >= 0 && state == HEADER_RECEIVING ==> NoBreak(buf[nLinePos..])
    {
      hide FeedAll, HeadOf, Routed, EndOfLine, Handed, Strays, ResponseContext.Quiet;
      nLinePos := 0;
      var i := 0;
      while i < |buf| - 1
        invariant i <= |buf| && nLinePos <= i + 1 && nLinePos <= |buf|
        invariant nLinePos == i + 1 ==> i < |buf| && buf[i] == LF
        invariant forall k | nLinePos <= k < i && k + 1 < |buf| :: !(buf[k] == CR && buf[k + 1] == LF)
        invariant state == HEADER_RECEIVING && result == old(result)
        invariant rsp.Quiet() && InHeadState() && Routed()
        invariant nLinePos == 0 ==> parsed == old(parsed)
        invariant nLinePos > 0 ==>
                    ahead < nLinePos && FeedAll(p, buf[ahead..nLinePos]) == Progress(past, parsed, InHead([]))
        decreases |buf| - i
      {
        if buf[i] == CR && buf[i + 1] == LF {
          var line := buf[nLinePos..i];
          LineRead(past, parsed, line);
          if nLinePos == 0 {
            FirstLine(p, buf, ahead, i);
          } else {
            NextLine(p, buf, ahead, nLinePos, i, Progress(past, parsed, InHead([])));
          }
          if i == nLinePos {
            EndHead();
            nLinePos := i + 2;
            return;
          }
          var ok := TakeLine(line);
          if !ok {
            return;
          }
          nLinePos := i + 2;
        }
        i := i + 1;
      }
    }

    lemma Nothing(p: Progress)
      ensures FeedAll(p, []) == p
    {
    }

    lemma LineRead(past: seq<Request>, parsed: Request, line: seq<Byte>)
      ensures EndOfLine(Progress(past, parsed, InHead(line + [CR])), line)
              == if line == [] then Position(HEADER_DONE, past, parsed, 0)
                 else Progress(past, parsed.(lines := parsed.lines + [line]), InHead([]))
    {
    }

    lemma NoBreakInLine(buf: seq<Byte>, from: nat, i: nat)
      requires from <= i < |buf| && buf[i] == CR
      requires forall k | from <= k < i :: !(buf[k] == CR && buf[k + 1] == LF)
      ensures NoBreak(buf[from..i] + [CR])
    {
      var x := buf[from..i] + [CR];
      forall k | 0 <= k < |x| - 1
        ensures !(x[k] == CR && x[k + 1] == LF)
      {
        assert x[k] == buf[from + k] && x[k + 1] == buf[from + k + 1];
      }
    }

    /** The first line break in the buffer ends the line whose beginning the one-pass reader has read. */
    lemma FirstLine(p: Progress, buf: seq<Byte>, read: nat, i: nat)
      requires i + 2 <= |buf| <= MAX_REQ_BUF_SIZE && buf[i] == CR && buf[i + 1] == LF
      requires forall k | 0 <= k < i :: !(buf[k] == CR && buf[k + 1] == LF)
      requires read <= |buf| && NoBreak(buf[..read]) && p.phase == InHead(buf[..read])
      ensures read < i + 2
      ensures FeedAll(p, buf[read..i + 2]) == EndOfLine(p.(phase := InHead(buf[0..i] + [CR])), buf[0..i])
    {
      hide FeedAll, EndOfLine;
      assert forall k | 0 <= k < read :: buf[..read][k] == buf[k];
      NoBreakInLine(buf, 0, i);
      assert buf[..read] + buf[read..i + 2] == buf[0..i] + CRLF;
      FeedRestOfLine(p, buf[..read], buf[read..i + 2], buf[0..i]);
    }

    /** The bytes up to and including the line break at `i` are one more line to the one-pass reader. */
    lemma NextLine(p: Progress, buf: seq<Byte>, read: nat, from: nat, i: nat, q: Progress)
      requires read <= from <= i && i + 2 <= |buf| <= MAX_REQ_BUF_SIZE && buf[i] == CR && buf[i + 1] == LF
      requires forall k | from <= k < i :: !(buf[k] == CR && buf[k + 1] == LF)
      requires FeedAll(p, buf[read..from]) == q && q.phase == InHead([])
      ensures FeedAll(p, buf[read..i + 2]) == EndOfLine(q.(phase := InHead(buf[from..i] + [CR])), buf[from..i])
    {
      hide FeedAll, EndOfLine;
      var line := buf[from..i];
      assert buf[from..i + 2] == line + CRLF;
      assert buf[read..i + 2] == buf[read..from] + buf[from..i + 2];
      FeedAppend(p, buf[read..from], line + CRLF);
      NoBreakInLine(buf, from, i);
      FeedLine(q, line);
    }

    // ---- the end of a head ----

    /** The current request asks for something that needs a session, and comes without one. */
    predicate Barred(slots: seq<Session>)
      reads this`handler, this`options, this`extension, this`head
    {
      handler.Some? && options.auth && !Authorized(slots, head.token, ipRemote) && !IsExempt(extension)
    }

    /** The handler's own code is not part of this model: it may set any result, and open a file. */
    method OnHeadersReceived()
      modifies this`result, this`fileOpen, this`calls, this`said
      ensures calls == old(calls) + [Callback.HeadersReceived] && result == said
    {
      calls := calls + [Callback.HeadersReceived];
      result, fileOpen := *, *;
      said := result;
    }

    /** The handler is called: it may be, and the request's method is one of those it takes. */
    predicate Welcome()
      reads this`handler, this`options, this`authorized, this`head
    {
      && handler.Some? && (options.auth ==> authorized == CODE_OK)
      && ((head.verb == Get && options.get) || (head.verb == Post && options.post))
    }

    method HeadersReceived()
      requires head.verb != NoMethod
      modifies this`result, this`authorized, this`fileOpen, this`calls, this`said
      ensures old(Welcome()) ==> calls == old(calls) + [Callback.HeadersReceived] && result == said
      ensures !old(Welcome()) ==> calls == old(calls) && fileOpen == old(fileOpen)
      ensures handler.Some? && options.auth && old(authorized) != CODE_OK ==> result == old(authorized)
      ensures !old(Welcome()) && !(handler.Some? && options.auth && old(authorized) != CODE_OK) ==>
                result == if old(result) < 0 then old(result)
                          else if handler.None? && !IsExempt(extension) then CODE_REDIRECT
                          else if head.verb == Get then CODE_NOT_FOUND
                          else ABORT
    {
      if handler.Some? {
        if options.auth && authorized != CODE_OK {
          result := authorized;
          return;
        }
        if (head.verb == Get && options.get) || (head.verb == Post && options.post) {
          OnHeadersReceived();
          return;
        }
      }
      if result < 0 {
        return;
      }
      var kind := SessionTypes(extension);
      if kind > 0 && handler.None? {
        authorized, result := 0, CODE_REDIRECT;
      } else if head.verb == Get {
        result := CODE_NOT_FOUND;
      } else {
        result := ABORT;
      }
    }

    /** The gate. */
    method CheckAccess()
      modifies this`result, this`authorized, this`gated, this`vouched
      ensures vouched == sessions.slots[..] && gated == Barred(vouched)
      ensures gated ==> result == CODE_REDIRECT && authorized == CODE_REDIRECT
      ensures !gated && handler.Some? ==> result == old(result) && authorized == CODE_OK
      ensures handler.None? ==> result == old(result) || (result == CODE_REDIRECT && !IsExempt(extension))
    {
      hide Authorized, IsExempt, FirstPresented;
      authorized := CODE_OK;
      vouched := sessions.slots[..];
      gated := Barred(vouched);
      var s := sessions.GetSession(head.token);
      Granted(s);
      if s.None? || ipRemote != sessions.slots[s.value].loginIP {
        if options.auth {
          var kind := SessionTypes(extension);
          if kind > 0 {
            result := CODE_REDIRECT;
            authorized := CODE_REDIRECT;
          }
        }
      }
    }

    /** The head is complete: the gate, and the first call into the handler. */
    method HeaderDone()
      requires state == HEADER_DONE && head.verb != NoMethod && rsp.Quiet() && calls == [] && !fileOpen && result == 0
      modifies this`state, this`result, this`authorized, this`fileOpen, this`gated, this`vouched, this`calls, this`said
      modifies rsp`chunked
      ensures rsp.Quiet() && state == if head.contentLength > 0 then BODY_RECEIVING else BODY_DONE
      ensures vouched == sessions.slots[..] && gated == Barred(vouched)
      ensures gated ==> result == CODE_REDIRECT && !fileOpen
      ensures calls == if Meant() then [Callback.HeadersReceived] else []
      ensures result == if Meant() then said else Refusal()
      ensures rsp.chunked == options.chunked
    {
      hide Barred, ResponseContext.Quiet, Meant, Welcome;
      rsp.SetChunked(options.chunked);
      CheckAccess();
      WelcomeIfMeant();
      state := if head.contentLength > 0 then BODY_RECEIVING else BODY_DONE;
      HeadersReceived();
    }

    lemma WelcomeIfMeant()
      requires gated == Barred(vouched) && (gated ==> authorized == CODE_REDIRECT)
      requires !gated && handler.Some? ==> authorized == CODE_OK
      ensures Welcome() <==> Meant()
      ensures handler.Some? && options.auth && authorized != CODE_OK <==> gated
      ensures gated ==> !Meant()
    {
      hide Authorized, IsExempt;
    }

    lemma Granted(s: Option<nat>)
      requires s == FirstPresented(sessions.slots[..], head.token)
      ensures Authorized(sessions.slots[..], head.token, ipRemote)
              <==> s.Some? && sessions.slots[s.value].loginIP == ipRemote
    {
    }

    // ---- the receiving loop ----

    /** Nothing is left to be read but the beginning of a line. */
    ghost predicate Resting()
      reads inq`chain, inq`length, inq.buffer
    {
      inq.chain == [] && inq.length < MAX_REQ_BUF_SIZE <= inq.buffer.Length && NoBreak(inq.buffer[..inq.length])
    }

    /** Takes whole lines out of the line buffer; half of a full buffer without any is thrown away. */
    method TakeLines()
      requires inq.Valid() && inq.length >= 2 && state == HEADER_RECEIVING && result == 0
      requires rsp.Quiet() && InHeadState() && Routed() && Framed() && inq.buffer != rsp.sendBuffer
      modifies this`state, this`result, this`authorized, this`head, this`handler, this`options, this`extension
      modifies this`parsed, this`handed, this`bad, this`ahead, rsp, rsp.sendBuffer
      modifies inq`length, inq`consumed, inq.buffer
      ensures inq.Valid() && rsp.Quiet() && InHeadState() && Routed()
      ensures state == HEADER_RECEIVING || state == HEADER_DONE
      ensures result == 0 || (result == ABORT && Malformed())
      ensures result == 0 ==> Framed() && inq.length <= old(inq.length)
      ensures result == 0 && state == HEADER_DONE ==> head.verb != NoMethod
      ensures result == 0 && state == HEADER_RECEIVING ==>
                inq.length < MAX_REQ_BUF_SIZE && NoBreak(inq.buffer[..inq.length])
      ensures result == 0 ==> |inq.Pending()| <= |old(inq.Pending())|
      ensures result == 0 && old(inq.length) == MAX_REQ_BUF_SIZE ==> |inq.Pending()| < |old(inq.Pending())|
    {
      hide FeedAll, Routed, ResponseContext.Quiet, Queue.Valid, Queue.Pending, EndOfLine, InHeadState, Malformed;
      Within();
      FrontOf(ahead);
      ghost var p := Progress(past, parsed, InHead(Front()));
      var nLinePos := ParseLines(inq.buffer[..inq.length], p);
      if nLinePos == 0 {
        if inq.length >= MAX_REQ_BUF_SIZE {
          HalveBuffer();
        }
      } else {
        FrontOf(nLinePos);
        ShiftLines(nLinePos, p);
      }
    }

    lemma Within()
      requires inq.Valid()
      ensures inq.length <= MAX_REQ_BUF_SIZE == inq.buffer.Length - 4 && inq.offset <= |Payload(inq.chain)|
      ensures inq.received == inq.consumed + (inq.buffer[..inq.length] + Payload(inq.chain)[inq.offset..])
      ensures inq.length <= |inq.Pending()|
    {
      inq.Bounds();
    }

    lemma FrontOf(n: nat)
      requires n <= inq.length <= inq.buffer.Length
      ensures inq.buffer[..inq.length][..n] == inq.buffer[..n]
      ensures inq.buffer[..inq.length][n..] == inq.buffer[n..inq.length]
    {
    }

    /** The lines taken leave the line buffer. */
    method ShiftLines(n: nat, ghost p: Progress)
      requires inq.Valid() && ahead < n <= inq.length && result <= 0
      requires state == HEADER_RECEIVING || state == HEADER_DONE
      requires Exact() ==> FeedAll(OUTSET, inq.consumed + Front()) == p
      requires result == 0 ==> FeedAll(p, inq.buffer[ahead..n]) == Position(state, past, parsed, 0)
      requires result == 0 && state == HEADER_RECEIVING ==> NoBreak(inq.buffer[..inq.length][n..])
      modifies this`ahead, inq`length, inq`consumed, inq.buffer
      ensures inq.Valid() && inq.length == old(inq.length) - n && |inq.Pending()| == |old(inq.Pending())| - n
      ensures result == 0 ==> Framed()
      ensures result == 0 && state == HEADER_RECEIVING ==> NoBreak(inq.buffer[..inq.length])
    {
      hide FeedAll, Queue.Valid, Queue.Pending, EndOfLine;
      Within();
      FrontOf(n);
      ghost var before, x, y := inq.consumed, Front(), inq.buffer[ahead..n];
      assert inq.buffer[..n] == x + y;
      Associate(before, x, y);
      inq.Shift(n);
      ahead := 0;
      FeedAppend(OUTSET, before + x, y);
      assert inq.consumed + Front() == inq.consumed;
    }

    /** There is no end of a line in a full buffer: the one-pass reader drops half of it as well. */
    method HalveBuffer()
      requires inq.Valid() && inq.length == MAX_REQ_BUF_SIZE && state == HEADER_RECEIVING && result <= 0
      requires result == 0 ==> Framed() && NoBreak(inq.buffer[..inq.length])
      modifies this`ahead, inq`length, inq`consumed, inq.buffer
      ensures inq.length == old(inq.length) / 2
      ensures inq.consumed == old(inq.consumed + inq.buffer[..inq.length / 2])
      ensures inq.Valid() && |inq.Pending()| < |old(inq.Pending())|
      ensures result == 0 ==> Framed() && NoBreak(inq.buffer[..inq.length])
    {
      hide FeedAll, Queue.Valid, Queue.Pending;
      Within();
      ghost var before, all, read := inq.consumed, inq.buffer[..inq.length], Front();
      ghost var half := inq.length / 2;
      FrontOf(half);
      if result == 0 {
        FrontOf(ahead);
        HalfDropped(before, all, read, Progress(past, parsed, InHead(read)));
      }
      inq.Shift(inq.length / 2);
      ahead := half;
      assert Front() == all[half..];
      Associate(before, all[..half], all[half..]);
      assert all[..half] + all[half..] == all;
    }

    lemma HalfDropped(before: seq<Byte>, all: seq<Byte>, read: seq<Byte>, p: Progress)
      requires |all| == MAX_REQ_BUF_SIZE && NoBreak(all) && |read| < |all| && read == all[..|read|]
      requires p.phase == InHead(read)
      ensures NoBreak(all[MAX_REQ_BUF_SIZE / 2..])
      ensures FeedAll(OUTSET, before + read) == p ==>
                FeedAll(OUTSET, before + all) == p.(phase := InHead(all[MAX_REQ_BUF_SIZE / 2..]))
    {
      hide FeedAll;
      var y, half := all[|read|..], all[MAX_REQ_BUF_SIZE / 2..];
      assert all == read + y;
      Associate(before, read, y);
      FeedAppend(OUTSET, before + read, y);
      FeedOverlong(p, read, y);
      assert forall k | 0 <= k < |half| :: half[k] == all[MAX_REQ_BUF_SIZE / 2 + k];
    }

    /** The handler's own code is not part of this model: it takes some of the bytes, and may set any result. */
    method OnContentReceived(size: nat) returns (consumed: int)
      modifies this`result, this`calls, this`said, this`taken, this`declined
      ensures consumed <= size && calls == old(calls) + [ContentReceived(size)] && result == said
      ensures (declined <==> consumed <= 0) && taken == old(taken) + if consumed > 0 then consumed else 0
    {
      calls := calls + [ContentReceived(size)];
      result, consumed := *, *;
      if consumed > size {
        consumed := size;
      }
      said, declined := result, consumed <= 0;
      taken := taken + if consumed > 0 then consumed else 0;
    }

    /** `n` bytes have become part of the body. */
    method TakeBody(n: nat)
      requires inq.Valid() && state == BODY_RECEIVING && Framed() && 0 < n <= inq.length
      modifies this`contentReceived, this`parsed, this`overrun, this`state, inq`length, inq`consumed, inq.buffer
      ensures inq.Valid() && parsed.lines == old(parsed.lines) && (state == BODY_RECEIVING || state == BODY_DONE)
      ensures contentReceived == old(contentReceived) + n
      ensures Framed() && |inq.Pending()| < |old(inq.Pending())|
      ensures overrun == (old(overrun) || n > head.contentLength - old(contentReceived))
      ensures parsed.body == old(parsed.body) + old(inq.buffer[..n])
    {
      hide Barred, FeedAll, Queue.Valid, Queue.Pending;
      Within();
      FrontOf(n);
      ghost var before, taken := inq.consumed, inq.buffer[..n];
      ghost var left := head.contentLength - contentReceived;
      if Exact() && n <= left {
        FeedAppend(OUTSET, before, taken);
        BodyRead(past, parsed, left, taken);
      }
      inq.Shift(n);
      contentReceived := contentReceived + n;
      overrun := overrun || n > left;
      parsed := parsed.(body := parsed.body + taken);
      if contentReceived >= head.contentLength {
        state := BODY_DONE;
      }
    }

    lemma BodyRead(past: seq<Request>, parsed: Request, left: int, s: seq<Byte>)
      requires 0 < |s| <= left
      ensures FeedAll(Position(BODY_RECEIVING, past, parsed, left), s)
              == Position(if |s| == left then BODY_DONE else BODY_RECEIVING, past,
                          parsed.(body := parsed.body + s), left - |s|)
    {
      hide FeedAll, Feed, HeadOf, EndOfLine;
      FeedBody(Position(BODY_RECEIVING, past, parsed, left), s);
    }

    /**
      Takes what there is of the head.  Stop: it is incomplete, or wrong, or the request is turned away;
      Again: there is more in the chain; otherwise the request goes on.
     */
    method TakeHead() returns (next: Option<Next>)
      requires Live() && state < HEADER_DONE && 0 < inq.length && (inq.chain != [] ==> inq.length == MAX_REQ_BUF_SIZE)
      modifies this`state, this`result, this`authorized, this`head, this`handler, this`options, this`extension
      modifies this`parsed, this`handed, this`ahead, this`turnedAway, this`gated, this`vouched, this`calls,
               this`fileOpen, this`said, this`bad
      modifies rsp, rsp.sendBuffer, inq`length, inq`consumed, inq.buffer
      ensures inq.Valid() && rsp.Quiet()
      ensures result > ABORT || state >= BODY_DONE ==> Live()
      ensures next == Some(Again) ==> result > ABORT && state < HEADER_DONE && |inq.Pending()| < |old(inq.Pending())|
      ensures next == Some(Stop) ==>
                || state == SENDING_HEADER
                || (state <= HEADER_DONE && result <= ABORT && !gated && Malformed())
                || (state == HEADER_RECEIVING && Resting() && !gated && result > ABORT)
      ensures next == None ==> result >= 0 && (state == BODY_RECEIVING || state == BODY_DONE) && !gated
      ensures next == None ==> Begun(calls) && Meant() && result == said
      ensures next == None ==> |inq.Pending()| <= |old(inq.Pending())|
      ensures next != Some(Leave) && state >= HEADER_RECEIVING
      ensures old(calls) == [] && (calls == [] || calls == [Callback.HeadersReceived])
    {
      hide HeadOf, FeedAll, Queue.Valid, Queue.Pending, ResponseContext.Quiet, ResponseContext.Valid, Routed;
      hide HasContent, Handed, Barred, Front;
      Within();
      IsQuiet();
      state := HEADER_RECEIVING;
      if inq.length >= 2 {
        TakeLines();
      }
      if result < 0 {
        return Some(Stop);
      }
      StillQuiet();
      if state < HEADER_DONE {
        return Some(if inq.chain != [] then Again else Stop);
      }
      next := Admit();
    }

    lemma IsQuiet()
      requires Answering() && state < SENDING_HEADER
      ensures rsp.Quiet()
    {
      hide Barred, ResponseContext.Valid;
    }

    lemma StillQuiet()
      requires rsp.Quiet() && state <= SENDING_HEADER
      ensures Answering() && rsp.blocks == []
    {
      hide Barred, ResponseContext.Valid;
    }

    /** The head is complete: the request goes on, or is turned away. */
    method Admit() returns (next: Option<Next>)
      requires Live() && state == HEADER_DONE
      modifies this`state, this`result, this`authorized, this`turnedAway, this`gated, this`vouched, this`calls,
              this`fileOpen, this`said
      modifies rsp`chunked
      ensures Live()
      ensures next == Some(Stop) ==> state == SENDING_HEADER && result < 0
      ensures turnedAway == (old(turnedAway) || (next == Some(Stop) && head.contentLength > 0))
      ensures next == None ==> result >= 0 && (state == BODY_RECEIVING || state == BODY_DONE) && !gated
      ensures next == None ==> Begun(calls) && Meant() && result == said
      ensures next == None || next == Some(Stop)
      ensures calls == [] || calls == [Callback.HeadersReceived]
    {
      hide FeedAll, Queue.Valid, ResponseContext.Quiet, ResponseContext.Valid, Routed, Barred, HeadOf, EndOfLine;
      hide HasContent, Handed, Front;
      IsQuiet();
      HeadRead(past, parsed);
      HeaderDone();
      if result < 0 {
        TurnAway();
        return Some(Stop);
      }
      StillQuiet();
      return None;
    }

    /** The request is answered as it is. */
    method TurnAway()
      requires Wired() && inq.Valid() && rsp.Quiet() && ahead == 0 && result < 0
      requires state == if head.contentLength > 0 then BODY_RECEIVING else BODY_DONE
      requires head == HeadOf(parsed.lines) && Routed() && Handed() && head.verb != NoMethod && parsed.lines != []
      requires Exact() ==> FeedAll(OUTSET, inq.consumed) == Position(state, past, parsed, head.contentLength)
      requires gated == Barred(vouched) && (gated ==> result == CODE_REDIRECT && !fileOpen) && Chunking()
      requires result == Status()
      requires if Meant() then calls != [] && calls[0] == Callback.HeadersReceived else Ignored(calls)
      modifies this`state, this`turnedAway
      ensures Live() && state == SENDING_HEADER
      ensures turnedAway == (old(turnedAway) || head.contentLength > 0)
    {
      hide FeedAll, Queue.Valid, ResponseContext.Quiet, ResponseContext.Valid, Routed, Barred, HeadOf, EndOfLine;
      hide HasContent, Handed, Status, Meant, Ignored, Told, Begun;
      MeantIsLetThrough();
      state := SENDING_HEADER;
      turnedAway := turnedAway || head.contentLength > 0;
      StillQuiet();
    }

    lemma HeadRead(past: seq<Request>, parsed: Request)
      ensures var n := HeadOf(parsed.lines).contentLength;
              Position(HEADER_DONE, past, parsed, 0)
              == Position(if n > 0 then BODY_RECEIVING else BODY_DONE, past, parsed, n)
    {
    }

    /** The handler's own code is not part of this model: any result, any file, and perhaps a chunked response. */
    method OnRequestReceived()
      requires Routed() && rsp.Quiet() && state == BODY_DONE && handler.Some? && Chunking()
      modifies this`result, this`fileOpen, this`options, this`calls, this`said, rsp`chunked
      ensures Routed() && rsp.Quiet() && Chunking() && Meant() == old(Meant())
      ensures options == old(options).(chunked := options.chunked)
      ensures result == said && calls == old(calls) + [Callback.RequestReceived]
    {
      hide ResponseContext.Quiet;
      calls := calls + [Callback.RequestReceived];
      result, fileOpen := *, *;
      said := result;
      var ssi := *;
      options := options.(chunked := options.chunked || (ssi && handler.value.source == WebFile));
      rsp.SetChunked(options.chunked);
    }

    lemma MeantIsLetThrough()
      ensures Meant() ==> handler.Some? && !gated
    {
    }

    method RequestReceived()
      requires Live() && state == BODY_DONE && Meant() && Begun(calls)
      modifies this`result, this`fileOpen, this`options, this`calls, this`said, rsp`chunked
      ensures Live() && result != 0 && Answered()
      ensures calls == if handler.Some? then old(calls) + [Callback.RequestReceived] else old(calls)
    {
      hide FeedAll, Queue.Valid, ResponseContext.Quiet, ResponseContext.Valid, HeadOf, Position, Routed, Answering;
      hide HasContent, Framed, Begun, Told, Meant, Refusal, Chunking, Handed;
      IsQuiet();
      TellingIt(calls);
      MeantIsLetThrough();
      if handler.Some? {
        OnRequestReceived();
      }
      if result == 0 {
        result := CODE_OK;
      }
      StillQuiet();
    }

    /** What an iteration of the receiving loop leaves behind when it is the last one. */
    ghost predicate Settled()
      reads this, inq, inq.buffer, inq.pcb`credit, rsp, rsp.sendBuffer, rsp.pcb`wire, rsp.pcb`acked
    {
      if state < BODY_DONE && result <= ABORT then Wired() && inq.Valid() && rsp.Quiet() && !gated && Fault()
      else Live() && contentReceived == taken && (state >= BODY_DONE ==> result != 0 && Answered())
           && (state == BODY_RECEIVING && result >= 0 ==> inq.chain == [] || declined)
           && (state <= HEADER_DONE ==>
                   (state == IDLE && inq.Pending() == []) || (state == HEADER_RECEIVING && Resting()))
    }

    /** What the state says about the request. */
    lemma Stages()
      requires Live() && state < BODY_DONE
      ensures state <= HEADER_DONE || state == BODY_RECEIVING
      ensures !gated && (state == BODY_RECEIVING ==> Meant() && result == said && (result >= 0 ==> Begun(calls)))
      ensures (state <= HEADER_DONE ==> result == 0) && !rsp.sending
    {
    }

    /** Moves what fits from the chain to the line buffer. */
    method Load()
      requires Live()
      modifies inq`length, inq`chain, inq`totLen, inq`offset, inq`freed, inq.buffer, inq.pcb`credit
      ensures Live() && inq.Pending() == old(inq.Pending())
      ensures inq.chain != [] ==> inq.length == MAX_REQ_BUF_SIZE
    {
      hide Barred, FeedAll, Queue.Valid, Queue.Pending, ResponseContext.Quiet, ResponseContext.Valid, HeadOf, Routed;
      hide Known, Answering, Gate;
      Kept();
      ghost var front, b := Front(), inq.buffer[..inq.length];
      inq.Dequeue();
      Kept();
      assert front == b[..ahead] && inq.buffer[..|b|] == b;
      assert Front() == inq.buffer[..ahead] == inq.buffer[..|b|][..ahead];
    }

    lemma NothingPending()
      requires inq.Valid() && inq.chain == [] && inq.length == 0
      ensures inq.Pending() == [] && Resting()
    {
      inq.NoPayload();
    }

    lemma Settling()
      requires Live() && contentReceived == taken && (state >= BODY_DONE ==> result != 0 && Answered())
      requires state == BODY_RECEIVING && result >= 0 ==> inq.chain == [] || declined
      requires state <= HEADER_DONE ==>
              (state == IDLE && inq.Pending() == []) || (state == HEADER_RECEIVING && Resting())
      ensures Settled()
    {
      hide Barred, Queue.Valid, Known, Framed, Gate, ResponseContext.Valid;
      if state < SENDING_HEADER {
        IsQuiet();
      }
      if state < BODY_DONE {
        Stages();
      }
    }

    /** One iteration of the receiving loop. */
    method Step() returns (next: Next)
      requires Live() && state < BODY_DONE && state != HEADER_DONE && result > ABORT && contentReceived == taken
      modifies this`state, this`result, this`authorized, this`head, this`handler, this`options, this`extension
      modifies this`parsed, this`handed, this`ahead, this`turnedAway, this`gated, this`vouched, this`calls,
               this`fileOpen
      modifies this`contentReceived, this`overrun, this`said, this`taken, this`declined, this`bad
      modifies rsp, rsp.sendBuffer, inq`length, inq`consumed, inq`chain, inq`totLen, inq`offset, inq`freed, inq.buffer
      modifies inq.pcb`credit
      ensures next == Again ==> Live() && state < BODY_DONE && state != HEADER_DONE && result > ABORT
      ensures next == Again ==> contentReceived == taken
      ensures next == Again ==> |inq.Pending()| < |old(inq.Pending())|
      ensures next != Again ==> Settled()
      ensures state >= old(state) && Adds(old(calls + DueOffer()), calls) && !rsp.sending
    {
      hide Barred, Live, Settled, Queue.Pending, Queue.Valid, Resting, AtOnce, ResponseContext.Quiet, Begun, Meant;
      Stages();
      ghost var due := DueOffer();
      Load();
      LiveQueue();
      InBuffer();
      if inq.length == 0 {
        NothingPending();
        Settling();
        return Stop;
      }
      if state < HEADER_DONE {
        var now := TakeHead();
        rsp.Silent();
        if now == Some(Stop) {
          HeadSettled();
        }
        if now.Some? {
          return now.value;
        }
      } else if result < 0 {
        Settling();
        return Stop;
      }
      next := TakeContent();
    }

    /** What the handler is offered next of what has been received. */
    ghost function DueOffer(): seq<Callback>
      reads this`state, this`result, inq, inq.buffer, inq.pcb`credit
    {
      if state == BODY_RECEIVING && result >= 0 && Backlog() > 0 then [ContentReceived(AtOnce(Backlog()))] else []
    }

    /** And when more has come. */
    ghost function OfferFor(more: Option<seq<Pbuf>>): seq<Callback>
      reads this`state, this`result, inq, inq.buffer, inq.pcb`credit
    {
      var n := Backlog() + if more.Some? then |Payload(more.value)| else 0;
      if state == BODY_RECEIVING && result >= 0 && n > 0 then [ContentReceived(AtOnce(n))] else []
    }

    ghost function AtOnce(n: nat): nat {
      if n < MAX_REQ_BUF_SIZE then n else MAX_REQ_BUF_SIZE
    }

    lemma InBuffer()
      requires inq.Valid() && (inq.chain != [] ==> inq.length == MAX_REQ_BUF_SIZE)
      ensures inq.length == AtOnce(Backlog())
    {
      Within();
      if inq.chain == [] {
        inq.NoPayload();
      }
    }

    lemma LiveQueue()
      requires Live()
      ensures inq.Valid() && Wired()
    {
    }

    lemma HeadSettled()
      requires inq.Valid() && rsp.Quiet() && Wired() && (result > ABORT || state >= BODY_DONE ==> Live())
      requires contentReceived == taken
      requires
        || state == SENDING_HEADER
        || (state <= HEADER_DONE && result <= ABORT && !gated && Malformed())
        || (state == HEADER_RECEIVING && Resting() && !gated && result > ABORT)
      ensures Settled()
    {
      hide Barred, Queue.Valid, Framed, Gate, ResponseContext.Valid, ResponseContext.Quiet;
    }

    /** The handler is offered what is in the line buffer. */
    method OfferContent() returns (consumed: int)
      requires Live() && state == BODY_RECEIVING && result >= 0
      modifies this`result, this`calls, this`said, this`taken, this`declined
      ensures calls == old(calls) + [ContentReceived(inq.length)] && consumed <= inq.length
      ensures Live() && Begun(calls) && Meant() && result == said && (declined <==> consumed <= 0)
      ensures taken == old(taken) + if consumed > 0 then consumed else 0
    {
      hide Barred, FeedAll, Queue.Valid, ResponseContext.Valid, ResponseContext.Quiet, Framed, Answering, Chunking;
      hide HeadOf, Routed, HasContent, OnlyCancelled, Begun, Meant, Handed;
      OneMoreOffer(calls, inq.length);
      MeantIsLetThrough();
      consumed := OnContentReceived(inq.length);
      Unbarred();
    }

    /** The handler has taken `n` bytes of it. */
    method ContentTaken(n: nat)
      requires Live() && state == BODY_RECEIVING && 0 < n <= inq.length && Meant() && Begun(calls) && result == said
      modifies this`contentReceived, this`parsed, this`overrun, this`state, inq`length, inq`consumed, inq.buffer
      ensures Live() && (state == BODY_RECEIVING || state == BODY_DONE) && |inq.Pending()| < |old(inq.Pending())|
      ensures contentReceived == old(contentReceived) + n
    {
      hide Barred, FeedAll, Queue.Valid, Queue.Pending, ResponseContext.Valid, ResponseContext.Quiet, Framed;
      hide HeadOf, Routed, HasContent, OnlyCancelled, Begun, Meant, Strays, Ignored;
      IsQuiet();
      TakeBody(n);
      StillQuiet();
    }

    /** Offers the line buffer to the handler as part of the body. */
    method ReceiveBody() returns (next: Next)
      requires Live() && state == BODY_RECEIVING && result >= 0 && contentReceived == taken
      modifies this`result, this`calls, this`said, this`taken, this`declined
      modifies this`contentReceived, this`parsed, this`overrun, this`state
      modifies inq`length, inq`consumed, inq.buffer
      ensures calls == old(calls) + [ContentReceived(old(inq.length))]
      ensures next == Again ==> Live() && result > ABORT && (state == BODY_RECEIVING || state == BODY_DONE)
      ensures next == Again ==> Begun(calls) && Meant() && result == said && contentReceived == taken
      ensures next == Again ==> |inq.Pending()| < |old(inq.Pending())|
      ensures next != Again ==> Settled() && state == BODY_RECEIVING
    {
      hide Live, Barred, Queue.Pending, ResponseContext.Quiet, Begun, Meant, Settled;
      var consumed := OfferContent();
      if result <= ABORT {
        Refused();
        return Leave;
      }
      if consumed <= 0 {
        Settling();
        return Stop;
      }
      ContentTaken(consumed);
      return Again;
    }

    lemma Refused()
      requires Live() && state == BODY_RECEIVING && result <= ABORT
      ensures Settled()
    {
      hide Barred, Queue.Valid, ResponseContext.Valid, ResponseContext.Quiet, Framed, Meant;
      IsQuiet();
      MeantIsLetThrough();
    }

    /** Receives the body, and ends the request when it is complete. */
    method TakeContent() returns (next: Next)
      requires Live() && (state == BODY_RECEIVING || state == BODY_DONE) && result >= 0 && Begun(calls) && Meant()
      requires result == said && contentReceived == taken
      modifies this`state, this`result, this`calls, this`contentReceived, this`parsed, this`overrun, this`options
      modifies this`fileOpen, this`said, this`taken, this`declined, rsp`chunked, inq`length, inq`consumed, inq.buffer
      ensures next == Again ==> Live() && state == BODY_RECEIVING && result > ABORT && contentReceived == taken
      ensures next == Again ==> |inq.Pending()| < |old(inq.Pending())|
      ensures next != Again ==> Settled()
      ensures state == BODY_RECEIVING || state == BODY_DONE
      ensures Adds(old(calls), calls)
      ensures old(state) == BODY_RECEIVING ==> Adds(old(calls) + [ContentReceived(old(inq.length))], calls)
    {
      hide Barred, Live, Queue.Pending, Settled;
      next := Stop;
      if state == BODY_RECEIVING {
        next := ReceiveBody();
        if next != Again {
          return;
        }
      }
      if state == BODY_DONE {
        RequestReceived();
        Settling();
        return Stop;
      }
      if inq.chain == [] {
        Settling();
        return Stop;
      }
    }

    // ---- the response ----

    /** A request is over; what is left of its response goes nowhere. */
    ghost predicate Ended()
      reads this, inq, inq.buffer, inq.pcb`credit, rsp, rsp.sendBuffer, rsp.pcb`wire, rsp.pcb`acked
    {
      && Wired() && inq.Valid() && Framed() && Shut() && state == REQUEST_END
      && rsp.WireOrder() && rsp.pcb.acked <= |rsp.pcb.wire|
    }

    /** A write that fails ends the request. */
    method Fail()
      requires Wired() && inq.Valid() && Framed() && Shut() && state >= BODY_DONE
      requires rsp.WireOrder() && rsp.pcb.acked <= |rsp.pcb.wire|
      modifies this`state, this`result
      ensures Ended() && result == ABORT
    {
      hide Barred, Queue.Valid, ResponseContext.WireOrder, FeedAll, HasContent;
      result := ABORT;
      state := REQUEST_END;
    }

    lemma Ongoing()
      requires Live()
      ensures state <= SENDING_BODY
      ensures if rsp.sending then state >= SENDING_HEADER else rsp.bytesLeft == 0 && rsp.blocks == []
    {
      hide Barred, Queue.Valid, ResponseContext.WireOrder, ResponseContext.Coded, FeedAll, Framed;
    }

    /** What is still buffered goes out before anything is loaded behind it. */
    method SendRemaining()
      requires Live() && BODY_DONE <= state < REQUEST_END && rsp.sending
      modifies this`state, this`result, rsp`bytesLeft, rsp`total2Send, rsp.sendBuffer
      modifies rsp.pcb`wire, rsp.pcb`refused, rsp.pcb`room
      ensures if state == REQUEST_END then Ended() && result == ABORT && rsp.pcb.refused != old(rsp.pcb.refused)
              else
                && Live() && rsp.sending && state == old(state) && result == old(result)
                && rsp.pcb.refused == old(rsp.pcb.refused) && rsp.Flushed(old(rsp.bytesLeft), old(rsp.pcb.room))
    {
      hide Barred, Queue.Valid, Framed, Known, HasContent, ResponseContext.WireOrder, ResponseContext.Coded;
      var err := rsp.SendBuffered();
      if err != 0 {
        Fail();
      }
    }

    /** The head; everything about it but its length is left open. */
    method SendHeader() returns (ok: bool)
      requires Live() && state >= BODY_DONE && result != 0 && Answered() && !rsp.sending
      modifies this`state, this`result, rsp`bytesLeft, rsp`head, rsp`stage, rsp`operIndex, rsp`sending, rsp`total2Send
      modifies rsp.sendBuffer
      modifies rsp.pcb`wire, rsp.pcb`refused, rsp.pcb`room
      ensures state >= old(state)
      ensures ok ==> result == old(result) && state == if result == CODE_REDIRECT then SENDING_BODY else SENDING_HEADER
      ensures if ok then Live() && rsp.sending && rsp.First() && state < REQUEST_END
              else Ended() && state == REQUEST_END && result == ABORT
      ensures ok <==> rsp.pcb.refused == old(rsp.pcb.refused)
      ensures ok ==> |rsp.head| < MAX_SEND_BUF_SIZE && rsp.Flushed(|rsp.head|, old(rsp.pcb.room))
    {
      hide Barred, Queue.Valid, HasContent, ResponseContext.WireOrder, ResponseContext.Coded, FeedAll, Known, Framed;
      var h: seq<Byte> := *;
      if h == [] || |h| >= MAX_SEND_BUF_SIZE {
        h := CRLF;
      }
      var err := rsp.SendHead(h);
      if err != 0 {
        Fail();
        return false;
      }
      HeadIsOut();
      return true;
    }

    method HeadIsOut()
      requires Wired() && inq.Valid() && Known() && Framed() && Gate() && Chunking() && result != 0 && Answered()
      requires BODY_DONE <= state <= SENDING_HEADER
      requires rsp.Valid() && rsp.sending && rsp.head != [] && rsp.blocks == []
      requires rsp.finished <==> rsp.stage == STAGE_END
      modifies this`state
      ensures Live() && state == if result == CODE_REDIRECT then SENDING_BODY else SENDING_HEADER
    {
      hide Barred, Queue.Valid, HasContent, ResponseContext.Valid, FeedAll;
      hide Routed, Handed, HeadOf, Answered, Meant, Ignored;
      state := if result == CODE_REDIRECT then SENDING_BODY else SENDING_HEADER;
    }

    /** The stack has sent something: on to the body, or to the end if there is none. */
    method HeaderSent()
      requires Live() && state == SENDING_HEADER && rsp.sending
      modifies this`state
      ensures state == REQUEST_END <==> result < 0
      ensures if state == REQUEST_END then Ended() else Live() && rsp.sending && state == SENDING_BODY
      ensures !rsp.finished && rsp.stage != STAGE_END
    {
      hide Barred, Queue.Valid, HasContent, ResponseContext.Valid, ResponseContext.WireOrder, FeedAll;
      hide Routed, Handed, HeadOf, Answered, Meant;
      BodyAhead();
      state := if result < 0 then REQUEST_END else SENDING_BODY;
    }

    lemma BodyAhead()
      requires Live() && state == SENDING_HEADER && rsp.sending
      ensures !rsp.finished && rsp.stage != STAGE_END && rsp.WireOrder() && rsp.pcb.acked <= |rsp.pcb.wire|
    {
      hide Barred, Queue.Valid, HasContent, ResponseContext.WireOrder, ResponseContext.Coded, FeedAll, Known, Framed;
      rsp.NotFinished();
    }

    /** What the handler answered has been loaded. */
    ghost predicate Served(was: seq<seq<Byte>>, a: Answer)
      reads rsp`blocks, rsp`stage, rsp`operIndex
    {
      && rsp.blocks == (if a.size < 0 || Waits(a) then was else was + [a.block])
      && (a.size >= 0 ==> rsp.stage == a.stage && rsp.operIndex == a.index)
    }

    /** What the handler answers for the room behind `left` bytes that are still buffered. */
    ghost function Answers(read: Handler, left: nat, first: bool): (t: Turn)
      reads this`handler, this`fileOpen, this`head, rsp`chunked
      ensures t == Ends || (t.Loads? && t.answer.size >= 0)
    {
      if !Asked() then Ends
      else
        var a := Says(read)(rsp.RoomBehind(left), rsp.chunked, first);
        if a.size < 0 then Ends else Loads(a)
    }

    /** Once all is loaded the response ends, when all of it is acknowledged, `acked` bytes by this event. */
    ghost function Content(caller: Caller, read: Handler, acked: nat): (t: Turn)
      reads this`handler, this`fileOpen, this`head, rsp`chunked, rsp`stage, rsp`operIndex, rsp`bytesLeft
      reads rsp`totalSent, rsp`total2Send
      ensures rsp.stage != STAGE_END ==> t == Ends || t.Loads?
    {
      if rsp.stage != STAGE_END then Answers(read, rsp.bytesLeft, rsp.First())
      else if caller == Sent && rsp.totalSent + acked >= rsp.total2Send then Ends
      else Rests
    }

    ghost function Due(caller: Caller, read: Handler, acked: nat): (t: Turn)
      reads this`handler, this`fileOpen, this`head, this`state, this`result, rsp, rsp.pcb`room
      ensures t == Opens <==> !rsp.sending
    {
      if !rsp.sending then Opens
      else if rsp.bytesLeft > 0 && (rsp.stage == STAGE_END || rsp.bytesLeft >= rsp.pcb.room) then Flushes
      else if state == SENDING_HEADER && caller != Sent then Rests
      else if state == SENDING_HEADER && result < 0 then Ends
      else Content(caller, read, acked)
    }

    ghost function Now(): Standing
      reads this`state, rsp`blocks, rsp`stage, rsp`operIndex, rsp`bytesLeft
    {
      Standing(state, rsp.blocks, rsp.stage, rsp.operIndex, rsp.bytesLeft)
    }

    /** What was due has happened, unless a write failed. */
    ghost predicate Turned(t: Turn, was: Standing, room: nat, failed: bool)
      reads this`state, rsp`blocks, rsp`stage, rsp`operIndex, rsp`bytesLeft, rsp.pcb`room
    {
      match t
      case Opens => true
      case Flushes =>
        rsp.blocks == was.blocks
        && (failed || (Now() == was.(left := rsp.bytesLeft) && rsp.Flushed(was.left, room)))
      case Rests => !failed && Now() == was
      case Ends => !failed && state == REQUEST_END && rsp.blocks == was.blocks && rsp.bytesLeft == was.left
      case Loads(a) =>
        Served(was.blocks, a)
        && if failed then a.block != [] else state == SENDING_BODY && Left(a, was.left, room)
    }

    /** What has been loaded is sent with all that is buffered; if nothing has, nothing is sent. */
    ghost predicate Left(a: Answer, left: nat, room: nat)
      reads rsp`bytesLeft, rsp.pcb`room
    {
      if a.block == [] then rsp.bytesLeft == left else rsp.Flushed(MAX_SEND_BUF_SIZE, room)
    }

    /**
      The event ends the request with bytes of its response unsent.  Of a response under way, some are
      buffered, but the stack has more room than that, so that they are not sent before anything else;
      and then the response is an error head, which ends with the first bytes of it that are
      acknowledged, or the handler has no more content.  Of a new response, the stack has no room for
      all of the head, and the handler of a barred request has no content.
     */
    ghost predicate Loses(caller: Caller, read: Handler, headLeft: nat)
      reads this`handler, this`fileOpen, this`head, this`state, this`result, rsp, rsp.pcb`room
    {
      if rsp.sending then
        && 0 < rsp.bytesLeft < rsp.pcb.room && rsp.stage != STAGE_END
        && (if state == SENDING_HEADER then
              caller == Sent && (result < 0 || Answers(read, rsp.bytesLeft, rsp.First()) == Ends)
            else Answers(read, rsp.bytesLeft, rsp.First()) == Ends)
      else
        result == CODE_REDIRECT && headLeft > 0 && Answers(read, headLeft, true) == Ends
    }

    lemma FirstContent(caller: Caller, read: Handler)
      requires Live() && rsp.First()
      ensures Content(caller, read, 0) == Answers(read, rsp.bytesLeft, true) && !rsp.finished
    {
      hide Barred, Queue.Valid, ResponseContext.Valid, ResponseContext.Quiet, Framed, Known, Gate, Answers;
    }

    lemma LosesIfEnds(caller: Caller, read: Handler, headLeft: nat)
      requires rsp.sending
      ensures Loses(caller, read, headLeft) <==> rsp.bytesLeft > 0 && Due(caller, read, 0) == Ends
    {
      hide Answers, ResponseContext.First;
    }

    lemma NothingFinished()
      requires Live()
      ensures rsp.pcb.acked <= |rsp.pcb.wire| && (!HasContent() ==> !rsp.finished)
    {
      hide Barred, Queue.Valid, Framed, Known, ResponseContext.WireOrder, ResponseContext.Coded, HasContent;
      if rsp.blocks == [] {
        rsp.NotFinished();
      }
    }

    /** Loads more of the body, or finds that there is no more, which ends the request. */
    method LoadBody(caller: Caller, read: Handler) returns (more: int, ghost done: bool)
      requires Obeys(read) && Live() && state == SENDING_BODY && rsp.sending
      requires rsp.stage == STAGE_END ==> rsp.bytesLeft == 0
      modifies this`state, this`calls, rsp`bytesLeft, rsp`stage, rsp`operIndex
      modifies rsp`body, rsp`blocks, rsp`finished, rsp.sendBuffer
      ensures old(rsp.blocks) <= rsp.blocks
      ensures more >= 0 ==> Live() && state == SENDING_BODY
      ensures more < 0 ==>
                && Ended() && rsp.bytesLeft == old(rsp.bytesLeft)
                && rsp.body == old(rsp.body) && rsp.blocks == old(rsp.blocks)
      ensures done ==> more < 0 && rsp.Complete() && old(rsp.finished)
      ensures calls == if done then old(calls) + [AllSent] else old(calls)
      ensures more < 0 && rsp.finished ==> done
      ensures done <==> old(rsp.stage == STAGE_END && Content(caller, read, 0) == Ends)
      ensures match old(Content(caller, read, 0))
              case Opens => false
              case Flushes => false
              case Rests => more == 0 && Now() == old(Now())
              case Ends => more < 0
              case Loads(a) => Served(old(rsp.blocks), a) && more == if a.block == [] then 0 else 1
      ensures more == 0 ==> rsp.bytesLeft == old(rsp.bytesLeft)
    {
      hide Barred, Queue.Valid, Framed, Known, ResponseContext.WireOrder, ResponseContext.Valid, Chunking;
      NothingToSay(read);
      hide Says, NoFileSays;
      NothingFinished();
      more, done := rsp.LoadContentToSend(caller, Asked(), Says(read));
      if more < 0 {
        if done {
          calls := calls + [AllSent];
        }
        Over();
      }
    }

    /** Loads more of the body, and sends it. */
    method SendBody(caller: Caller, read: Handler) returns (ghost done: bool, ghost failed: bool)
      requires Obeys(read) && Live() && state == SENDING_BODY && rsp.sending
      requires rsp.stage == STAGE_END ==> rsp.bytesLeft == 0
      modifies this`state, this`result, this`calls, rsp`bytesLeft, rsp`stage, rsp`operIndex, rsp`total2Send
      modifies rsp`body, rsp`blocks, rsp`finished, rsp.sendBuffer
      modifies rsp.pcb`wire, rsp.pcb`refused, rsp.pcb`room
      ensures state >= old(state) && old(rsp.blocks) <= rsp.blocks
      ensures if state == REQUEST_END then Ended() else Live() && rsp.sending
      ensures if failed then state == REQUEST_END && result == ABORT else result == old(result)
      ensures done ==> state == REQUEST_END && !failed && rsp.Complete() && old(rsp.finished)
      ensures state == REQUEST_END && rsp.finished && !failed ==> done
      ensures calls == if done then old(calls) + [AllSent] else old(calls)
      ensures state == REQUEST_END && !failed ==>
                && rsp.bytesLeft == old(rsp.bytesLeft) && rsp.pcb.wire == old(rsp.pcb.wire)
                && rsp.body == old(rsp.body) && rsp.blocks == old(rsp.blocks)
      ensures failed <==> rsp.pcb.refused != old(rsp.pcb.refused)
      ensures done <==> old(rsp.stage == STAGE_END && Content(caller, read, 0) == Ends)
      ensures Turned(old(Content(caller, read, 0)), old(Now()), old(rsp.pcb.room), failed)
    {
      hide Barred, Queue.Valid, Framed, Known, ResponseContext.WireOrder, ResponseContext.Coded, FeedAll, Content;
      hide HasContent;
      failed := false;
      var more;
      more, done := LoadBody(caller, read);
      if more > 0 {
        var err := rsp.SendBuffered();
        if err != 0 {
          failed := true;
          Fail();
        }
      }
    }

    /** There is no more content. */
    method Over()
      requires Wired() && inq.Valid() && Framed() && Shut() && state >= BODY_DONE
      requires rsp.WireOrder() && rsp.pcb.acked <= |rsp.pcb.wire|
      modifies this`state
      ensures Ended()
    {
      hide Barred, Queue.Valid, ResponseContext.WireOrder, FeedAll, HasContent;
      state := REQUEST_END;
    }

    /** A new response: its head, and of a redirect the body as well. */
    method Begin(caller: Caller, read: Handler) returns (ghost done: bool, ghost stack: Stack)
      requires Obeys(read) && Live() && state >= BODY_DONE && result != 0 && Answered() && !rsp.sending
      modifies this`state, this`result, this`calls, rsp`bytesLeft, rsp`head, rsp`stage, rsp`operIndex, rsp`sending
      modifies rsp`total2Send, rsp`body, rsp`blocks, rsp`finished, rsp.sendBuffer
      modifies rsp.pcb`wire, rsp.pcb`refused, rsp.pcb`room
      ensures state >= old(state) && old(rsp.blocks) <= rsp.blocks
      ensures if state == REQUEST_END then Ended() else Live() && rsp.sending
      ensures if stack.failed then state == REQUEST_END && result == ABORT else result == old(result)
      ensures stack.failed <==> rsp.pcb.refused != old(rsp.pcb.refused)
      ensures !done && calls == old(calls) && (state == REQUEST_END && !stack.failed ==> !rsp.finished)
      ensures state == REQUEST_END && !stack.failed ==>
                && rsp.bytesLeft == stack.headLeft && result == CODE_REDIRECT
                && old(Answers(read, stack.headLeft, true)) == Ends
      ensures stack.failed ==> stack.headLeft == 0 || old(Answers(read, stack.headLeft, true)) != Ends
      ensures old(rsp.pcb.room) >= MAX_SEND_BUF_SIZE ==> stack.headLeft == 0
      ensures !stack.failed ==>
                if result != CODE_REDIRECT then
                  && state == SENDING_HEADER && rsp.blocks == [] && rsp.bytesLeft == stack.headLeft
                  && rsp.Flushed(|rsp.head|, old(rsp.pcb.room))
                else match old(Answers(read, stack.headLeft, true))
                  case Ends => state == REQUEST_END
                  case Loads(a) => state == SENDING_BODY && Served([], a)
                  case _ => false
    {
      hide Barred, Live, Ended, ResponseContext.Quiet, ResponseContext.Valid, Answers, Content;
      done := false;
      stack := Stack(0, false);
      Ongoing();
      var ok := SendHeader();
      if !ok {
        stack := stack.(failed := true);
        return;
      }
      stack := stack.(headLeft := rsp.bytesLeft);
      FirstContent(caller, read);
      if state == SENDING_BODY {
        ghost var failed;
        done, failed := SendBody(caller, read);
        stack := stack.(failed := failed);
      }
    }

    /**
      Sends what there is to send for this event; `done` says that the response is complete.  A request
      that ends otherwise, without a failed write, leaves bytes of its response unsent exactly when
      it `Loses` them.
     */
    method HttpResponseProc(caller: Caller, read: Handler) returns (ghost done: bool, ghost stack: Stack)
      requires Obeys(read) && Live() && state >= BODY_DONE && result != 0 && Answered()
      modifies this`state, this`result, this`calls, rsp`bytesLeft, rsp`head, rsp`stage, rsp`operIndex, rsp`sending
      modifies rsp`total2Send, rsp`body, rsp`blocks, rsp`finished, rsp.sendBuffer
      modifies rsp.pcb`wire, rsp.pcb`refused, rsp.pcb`room
      ensures state >= old(state)
      ensures if state == REQUEST_END then Ended() else Live() && rsp.sending
      ensures old(rsp.blocks) <= rsp.blocks && (old(rsp.sending) ==> rsp.head == old(rsp.head))
      ensures if stack.failed then state == REQUEST_END && result == ABORT else result == old(result)
      ensures done ==> state == REQUEST_END && !stack.failed && rsp.Complete() && old(rsp.finished)
      ensures state == REQUEST_END && rsp.finished && !stack.failed ==> done
      ensures calls == if done then old(calls) + [AllSent] else old(calls)
      ensures state == REQUEST_END && !stack.failed && rsp.bytesLeft > 0
              <==> old(Loses(caller, read, stack.headLeft))
      ensures stack.failed <==> rsp.pcb.refused != old(rsp.pcb.refused)
      ensures state == REQUEST_END && !stack.failed ==>
                && rsp.bytesLeft == (if old(rsp.sending) then old(rsp.bytesLeft) else stack.headLeft)
                && (old(rsp.sending) ==>
                      rsp.pcb.wire == old(rsp.pcb.wire) && rsp.body == old(rsp.body) && rsp.blocks == old(rsp.blocks))
      ensures done <==> old(rsp.stage == STAGE_END && Due(caller, read, 0) == Ends)
      ensures Turned(old(Due(caller, read, 0)), old(Now()), old(rsp.pcb.room), stack.failed)
      ensures !old(rsp.sending) && old(rsp.pcb.room) >= MAX_SEND_BUF_SIZE ==> stack.headLeft == 0
      ensures !old(rsp.sending) && !stack.failed ==>
                if result != CODE_REDIRECT then
                  && state == SENDING_HEADER && rsp.blocks == [] && rsp.bytesLeft == stack.headLeft
                  && rsp.Flushed(|rsp.head|, old(rsp.pcb.room))
                else match old(Answers(read, stack.headLeft, true))
                  case Ends => state == REQUEST_END
                  case Loads(a) => state == SENDING_BODY && Served([], a)
                  case _ => false
    {
      hide Barred, Live, Ended, ResponseContext.Quiet, ResponseContext.Valid, Answers, Content;
      done := false;
      Ongoing();
      if rsp.sending {
        LosesIfEnds(caller, read, 0);
      }
      var room := rsp.pcb.Sndbuf();
      stack := Stack(0, false);
      if rsp.bytesLeft > 0 && (rsp.stage == STAGE_END || rsp.bytesLeft >= room) {
        SendRemaining();
        stack := stack.(failed := state == REQUEST_END);
        return;
      }
      if !rsp.sending {
        done, stack := Begin(caller, read);
        return;
      }
      if state == SENDING_HEADER && caller == Sent {
        HeaderSent();
      }
      if state == SENDING_BODY {
        ghost var failed;
        done, failed := SendBody(caller, read);
        stack := stack.(failed := failed);
      }
    }

    // ---- the callbacks ----

    /** A connection at rest: open and live, or closed with every packet buffer given back. */
    ghost predicate Valid()
      reads this, inq, inq.buffer, inq.pcb`credit, rsp, rsp.sendBuffer, rsp.pcb`wire, rsp.pcb`acked
    {
      if open then
        && Ready() && result > ABORT
        && (state == HEADER_RECEIVING ==> Resting()) && (peerClosing ==> state >= SENDING_HEADER)
      else inq.Owned() && inq.chain == [] && inq.freed == inq.delivered && state == IDLE && result == 0 && Discreet()
    }

    /** As at the beginning of an event: there may be bytes that have not been looked at. */
    ghost predicate Ready()
      reads this, inq, inq.buffer, inq.pcb`credit, rsp, rsp.sendBuffer, rsp.pcb`wire, rsp.pcb`acked
    {
      && Live() && state != HEADER_DONE && contentReceived == taken
      && (state >= BODY_DONE ==> rsp.sending) && (state == BODY_RECEIVING ==> result > ABORT)
    }

    /**
      Between two resets of an open connection the state never goes back, nothing is left unread when
      idle, there is one head and its blocks only grow; a reset is the end of one more request.
     */
    twostate predicate Onward()
      reads this, rsp, inq, inq.buffer, inq.pcb`credit
    {
      open ==>
        if past == old(past) then
          && state >= old(state) && (state == IDLE && result > ABORT ==> Backlog() == 0)
          && (old(rsp.sending) ==>
                && rsp.sending && rsp.head == old(rsp.head) && rsp.base == old(rsp.base)
                && old(rsp.blocks) <= rsp.blocks)
        else
          |past| == |old(past)| + 1 && old(past) <= past && state == IDLE && !rsp.sending
    }

    /** The request has been answered; bytes of the next one may be waiting already, and stay. */
    method ResetHttpContext()
      requires Ended() && open && !peerClosing
      modifies this`past, this`parsed, this`gated, this`calls, this`state, this`result, this`head, this`contentReceived
      modifies this`said, this`taken, this`bad, this`handed, this`handler, this`extension, this`fileOpen
      modifies this`authorized, rsp, rsp.sendBuffer
      ensures Valid() && state == IDLE && past == old(past) + [old(parsed)] && !rsp.sending && result == 0
      ensures rsp.bytesLeft == 0 && rsp.base == |rsp.pcb.wire|
    {
      hide Barred, Queue.Valid, HasContent, ResponseContext.Valid, ResponseContext.Quiet, Framed, Known;
      rsp.Start();
      ForgetRequest();
      ForgetHandler();
      KnownAfresh();
      StillQuiet();
      rsp.Silent();
    }

    method ForgetRequest()
      requires Framed() && state == REQUEST_END
      modifies this`past, this`parsed, this`state, this`head, this`contentReceived
      ensures Framed() && past == old(past) + [old(parsed)] && parsed == NOTHING && state == IDLE
      ensures head == NO_HEAD && contentReceived == 0
    {
      hide Barred, FeedAll, HeadOf, EndOfLine;
      past, parsed := past + [parsed], NOTHING;
      state, head, contentReceived := IDLE, NO_HEAD, 0;
      assert inq.consumed + Front() == inq.consumed;
    }

    method ForgetHandler()
      modifies this`gated, this`calls, this`handed, this`result, this`handler, this`extension, this`fileOpen
      modifies this`authorized, this`said, this`taken, this`bad
      ensures taken == 0
      ensures !gated && calls == [] && handed == [] && result == 0 && !fileOpen && handler == None
    {
      said, taken, bad := 0, 0, None;
      gated, calls, handed, result := false, [], [], 0;
      handler, extension, fileOpen, authorized := None, [], false, 0;
    }

    /** Nothing of the next request has been looked at. */
    ghost predicate Afresh()
      reads this`parsed, this`gated, this`calls, this`handed, this`state, this`result, this`head, this`contentReceived
      reads this`fileOpen, this`handler
    {
      && parsed == NOTHING && !gated && calls == [] && state == IDLE && result == 0 && head == NO_HEAD
      && contentReceived == 0 && !fileOpen && handed == [] && handler == None
    }

    lemma KnownAfresh()
      requires Afresh()
      ensures Known()
    {
    }

    lemma Opening()
      requires Afresh() && open && !peerClosing && taken == 0 && Wired() && inq.Valid() && rsp.Quiet()
      requires past == [] && ahead == 0
              && inq.consumed == []
      ensures Valid()
    {
      hide Barred, Queue.Valid, ResponseContext.Valid, ResponseContext.Quiet, HasContent;
      KnownAfresh();
      StillQuiet();
      rsp.Silent();
      hide Barred, Known;
    }

    /** Closes the connection; if the stack cannot close it yet, it is detached all the same. */
    method CloseHttpContext()
      requires Wired() && inq.Valid() && Discreet()
      modifies this`open, this`state, this`result, this`head, this`contentReceived, this`handler, this`fileOpen
      modifies this`calls, this`peerClosing
      modifies inq`length, inq`consumed, inq`chain, inq`totLen, inq`offset, inq`freed, inq.buffer
      ensures Valid() && !open
      ensures calls == if old(handler).Some? then old(calls) + [Finished] else old(calls)
    {
      var err: int := *;
      if err == 0 {
        peerClosing := false;
      }
      FreeHttpContext();
    }

    lemma WithinQueue()
      requires inq.Valid()
      ensures inq.Owned() && inq.buffer.Length == MAX_REQ_BUF_SIZE + 4
    {
      hide Queue.Credited;
    }

    method SayFinished()
      requires Discreet()
      modifies this`calls
      ensures Discreet() && calls == if handler.Some? then old(calls) + [Finished] else old(calls)
    {
      if handler.Some? {
        calls := calls + [Finished];
      }
    }

    /** The handler is told, and everything the context holds is given back. */
    method FreeHttpContext()
      requires Wired() && inq.Valid() && Discreet()
      modifies this`open, this`state, this`result, this`head, this`contentReceived, this`handler, this`fileOpen
      modifies this`calls
      modifies inq`length, inq`consumed, inq`chain, inq`totLen, inq`offset, inq`freed, inq.buffer
      ensures Valid() && !open && !fileOpen && handler == None
      ensures calls == if old(handler).Some? then old(calls) + [Finished] else old(calls)
    {
      hide Queue.Conserved, Queue.Credited, Queue.Owned, Ready, Discreet;
      SayFinished();
      WithinQueue();
      inq.Release();
      open, state, result, head, contentReceived := false, IDLE, 0, NO_HEAD, 0;
      handler, fileOpen := None, false;
    }

    lemma AtRest()
      requires Ready()
      ensures Live() && Wired() && inq.Valid() && state != HEADER_DONE && (state < BODY_DONE ==> result > ABORT)
      ensures contentReceived == taken
      ensures Discreet()
      ensures state >= BODY_DONE ==> Settled()
      ensures rsp.sending ==> state >= SENDING_HEADER
    {
      hide Barred, Queue.Valid, Framed, Gate, ResponseContext.Valid, HeadOf, Routed;
      GateShuts();
    }

    /** How much has been received and not been looked at. */
    ghost function Backlog(): nat
      reads inq, inq.buffer, inq.pcb`credit
    {
      if inq.Valid() then |inq.Pending()| else 0
    }

    /** The receiving loop. */
    method ReceiveAll()
      requires Ready()
      modifies this`state, this`result, this`authorized, this`head, this`handler, this`options, this`extension
      modifies this`parsed, this`handed, this`ahead, this`turnedAway, this`gated, this`vouched, this`calls,
               this`fileOpen
      modifies this`contentReceived, this`overrun, this`said, this`taken, this`declined, this`bad
      modifies rsp, rsp.sendBuffer, inq`length, inq`consumed, inq`chain, inq`totLen, inq`offset, inq`freed, inq.buffer
      modifies inq.pcb`credit
      ensures Settled() && state >= old(state)
      ensures old(state) >= BODY_DONE ==> unchanged(rsp) && unchanged(this)
      ensures Adds(old(calls + DueOffer()), calls) && rsp.sending == old(rsp.sending)
    {
      hide Barred, Live, Settled, Queue.Pending, Queue.Valid, Resting;
      AtRest();
      ghost var first := true;
      while state < BODY_DONE
        invariant state >= old(state) && state != HEADER_DONE
        invariant if first then unchanged(this) && unchanged(inq) && unchanged(inq.buffer) && unchanged(inq.pcb)
                  else Adds(old(calls + DueOffer()), calls)
        invariant if state < BODY_DONE then Live() && result > ABORT && contentReceived == taken else Settled()
        invariant old(state) >= BODY_DONE ==> unchanged(rsp) && unchanged(this)
        invariant rsp.sending == old(rsp.sending)
        decreases Backlog()
      {
        LiveQueue();
        first := false;
        var next := Step();
        if next != Again {
          break;
        }
        LiveQueue();
      }
    }

    lemma AtResponse()
      requires Settled() && state >= BODY_DONE
      ensures Live() && result != 0 && Answered() && state < REQUEST_END && contentReceived == taken
      ensures head == HeadOf(parsed.lines)
    {
      hide Barred, Queue.Valid, Framed, Answering, Gate, Routed, Handed, HeadOf;
    }

    lemma InResponse()
      requires Live() && rsp.sending
      ensures SENDING_HEADER <= state < REQUEST_END && Wired() && inq.Valid() && Discreet() && Answered()
    {
      hide Barred, Queue.Valid, ResponseContext.Valid, ResponseContext.Quiet, Framed, Fatal;
    }

    lemma StatusOf()
      requires Known() && state > HEADER_DONE && result == Status()
      ensures result <= ABORT ==> Fatal()
    {
      hide Heard, Handed, Acceptable, HeadOf;
    }

    lemma InReceiving()
      requires Settled() && state < BODY_DONE
      ensures Wired() && inq.Valid() && rsp.Quiet() && Discreet()
      ensures state == IDLE && result > ABORT ==> Backlog() == 0
      ensures result <= ABORT ==> Fatal()
      ensures result > ABORT ==>
              && Live() && contentReceived == taken
              && (state == BODY_RECEIVING || state == IDLE || (state == HEADER_RECEIVING && Resting()))
    {
      hide Barred, Queue.Valid, ResponseContext.Valid, ResponseContext.Quiet, Framed, Gate;
      if result > ABORT {
        IsQuiet();
      }
    }

    lemma Kept()
      requires inq.Valid() && ahead <= inq.length
      ensures inq.length <= inq.buffer.Length && Front() == inq.buffer[..inq.length][..ahead]
    {
      Within();
    }

    lemma Waiting()
      requires inq.Valid()
      ensures Backlog() == |inq.received| - |inq.consumed|
    {
      inq.Bounds();
    }

    /** A segment goes into the queue and changes nothing else. */
    method Receive(p: seq<Pbuf>)
      requires Ready() && p != []
      modifies inq`length, inq`chain, inq`totLen, inq`received, inq`delivered, inq`freed, inq.buffer, inq.pcb`credit
      ensures Ready() && inq.received == old(inq.received) + Payload(p)
              && inq.delivered == old(inq.delivered) + multiset(p)
      ensures Backlog() == old(Backlog()) + |Payload(p)|
    {
      hide Barred, Queue.Valid, FeedAll, Position, ResponseContext.Valid, Known, HasContent, Payload;
      Kept();
      Waiting();
      ghost var front, b := Front(), inq.buffer[..inq.length];
      assert front == b[..ahead];
      inq.Enqueue(p);
      Kept();
      Waiting();
      assert front == b[..ahead] && inq.buffer[..|b|] == b;
      assert Front() == inq.buffer[..ahead] == inq.buffer[..|b|][..ahead];
    }

    method MarkClosing()
      requires Ready()
      modifies this`peerClosing
      ensures Ready() && peerClosing
    {
      hide Queue.Valid, ResponseContext.Valid, Known, Framed, Answering, Gate, Barred;
      peerClosing := true;
    }

    /** What has come is put away until it is looked at. */
    method TakeIn(p: Option<seq<Pbuf>>)
      requires Ready() && open && (p.Some? ==> p.value != [])
      modifies this`peerClosing
      modifies inq`length, inq`chain, inq`totLen, inq`received, inq`delivered, inq`freed, inq.buffer, inq.pcb`credit
      ensures Ready() && peerClosing == (p.None? || old(peerClosing))
      ensures inq.received == if p.Some? then old(inq.received) + Payload(p.value) else old(inq.received)
      ensures inq.delivered == if p.Some? then old(inq.delivered) + multiset(p.value) else old(inq.delivered)
      ensures DueOffer() == old(OfferFor(p))
    {
      hide Ready, Payload, AtOnce;
      if p.None? {
        MarkClosing();
      } else {
        Receive(p.value);
      }
    }

    method Acknowledged(n: nat, ghost read: Handler)
      requires Ready() && rsp.pcb.acked + n <= |rsp.pcb.wire|
      modifies rsp`totalSent, rsp.pcb`acked
      ensures Ready() && rsp.pcb.acked == old(rsp.pcb.acked) + n && rsp.totalSent == old(rsp.totalSent) + n
      ensures Due(Sent, read, 0) == old(Due(Sent, read, n))
    {
      hide Barred, Queue.Valid, FeedAll, Position, Known, HasContent, ResponseContext.WireOrder;
      hide ResponseContext.Coded;
      rsp.Acknowledged(n);
    }

    ghost function Halfway(): Midway
      reads this`past, this`parsed, this`statuses, this`result, this`peerClosing, this`head, this`state
      reads rsp`blocks, rsp`stage, rsp`operIndex, rsp`bytesLeft, rsp.pcb`room
    {
      Midway(past, parsed, statuses, result, !peerClosing && head.keepAlive, Now(), rsp.pcb.room)
    }

    /** What was due has happened to the connection: a response that ends makes room for the next request. */
    ghost predicate Moved(t: Turn, was: Midway)
      reads this`open, this`past, this`statuses, this`result, this`state
      reads rsp`blocks, rsp`stage, rsp`operIndex, rsp`bytesLeft, rsp.pcb`room
    {
      match t
      case Opens => true
      case Ends =>
        && open == was.keeps && statuses == was.statuses + [was.result]
        && (open ==> past == was.past + [was.parsed] && state == IDLE && result == 0)
      case _ =>
        && open && past == was.past && statuses == was.statuses && result == was.result
        && Turned(t, was.at, was.room, false)
    }

    lemma EndsIfDue(t: Turn, was: Standing, room: nat, failed: bool)
      requires Turned(t, was, room, failed) && was.state < REQUEST_END
      ensures t != Opens && !failed ==> (state == REQUEST_END <==> t == Ends)
    {
    }

    /** A request can end with the event that completes it, but only by a redirect, or a write that is refused. */
    ghost predicate AtOnceOnly(was: seq<int>, past0: seq<Request>, sending: bool, refused: nat)
      reads this`statuses, this`past, rsp.pcb`refused
    {
      && (statuses == was ==> past == past0)
      && (statuses != was && !sending && rsp.pcb.refused == refused ==> statuses == was + [CODE_REDIRECT])
    }

    /** The response goes on, and the request may end. */
    method Respond(caller: Caller, read: Handler)
      requires Obeys(read) && Settled() && open && state >= BODY_DONE
      modifies this, rsp, rsp.sendBuffer
      modifies rsp.pcb`wire, rsp.pcb`refused, rsp.pcb`room
      modifies inq`length, inq`consumed, inq`chain, inq`totLen, inq`offset, inq`freed, inq.buffer
      ensures Quits() && Onward() && (open ==> peerClosing == old(peerClosing))
      ensures old(rsp.sending) && rsp.pcb.refused == old(rsp.pcb.refused) ==>
                Moved(old(Due(caller, read, 0)), old(Halfway()))
      ensures past == old(past) ==> Adds(old(calls), calls)
      ensures AtOnceOnly(old(statuses), old(past), old(rsp.sending), old(rsp.pcb.refused))
      ensures statuses == old(statuses) ==> open
      ensures open && result <= ABORT ==> Fatal()
      ensures !open ==> old(peerClosing) || !HeadOf(parsed.lines).keepAlive
    {
      hide Barred, Live, Settled, Ended, Fatal, HeadOf, ResponseContext.Quiet, ResponseContext.Valid, Queue.Valid;
      hide Due, Loses, Answers, Turned, Quits, Adds, Valid, Ready, Discreet, Answered;
      AtResponse();
      ghost var done, stack, before, due, was;
      before, due, was := Halfway(), Due(caller, read, 0), calls;
      done, stack := HttpResponseProc(caller, read);
      EndsIfDue(due, before.at, before.room, stack.failed);
      AddsNothing(was, done);
      if state == REQUEST_END {
        EndOfRequest();
        AtLast();
        if !open {
          AddsAfter(was, done, calls);
        }
      } else {
        InResponse();
        Continuing();
      }
    }

    lemma AtLast()
      requires Valid() && Wired() && Discreet() && (open ==> inq.Valid())
      ensures Quits()
    {
      hide Valid, Queue.Valid, Discreet, Fatal;
    }

    lemma Continuing()
      requires Live() && rsp.sending && open && contentReceived == taken
      ensures Quits() && (result <= ABORT ==> Fatal())
    {
      hide Barred, Queue.Valid, ResponseContext.Valid, ResponseContext.Quiet, Framed, Fatal, Status, HeadOf;
      InResponse();
      StatusOf();
    }

    /** Everything one event leads to: bytes are read, a response is sent, the request ends. */
    method HttpRequestProc(caller: Caller, read: Handler)
      requires Obeys(read) && Ready() && open
      modifies this, rsp, rsp.sendBuffer, inq.pcb`credit
      modifies rsp.pcb`wire, rsp.pcb`refused, rsp.pcb`room
      modifies inq`length, inq`consumed, inq`chain, inq`totLen, inq`offset, inq`freed, inq.buffer
      ensures Quits() && Onward() && (open ==> peerClosing == old(peerClosing))
      ensures old(rsp.sending) && rsp.pcb.refused == old(rsp.pcb.refused) ==>
                Moved(old(Due(caller, read, 0)), old(Halfway()))
      ensures past == old(past) ==> Adds(old(calls + DueOffer()), calls)
      ensures AtOnceOnly(old(statuses), old(past), old(rsp.sending), old(rsp.pcb.refused))
      ensures statuses == old(statuses) ==> open
      ensures open && result <= ABORT ==> old(peerClosing) || Fatal()
      ensures !open ==> old(peerClosing) || !HeadOf(parsed.lines).keepAlive
    {
      hide Barred, Live, Settled, Ended, Fatal, HeadOf, ResponseContext.Quiet, ResponseContext.Valid, Queue.Valid;
      hide Due, Loses, Answers, Turned, Moved;
      AtRest();
      ReceiveAll();
      if state >= BODY_DONE {
        Respond(caller, read);
      } else {
        InReceiving();
        if peerClosing {
          result := ABORT;
        }
      }
    }

    /** The connection is kept for the next request, or closed. */
    method EndOfRequest()
      requires Ended() && open
      modifies this, rsp, rsp.sendBuffer
      modifies inq`length, inq`consumed, inq`chain, inq`totLen, inq`offset, inq`freed, inq.buffer
      ensures open <==> !old(peerClosing) && old(head).keepAlive
      ensures open ==> !peerClosing
      ensures Valid() && Wired() && Discreet()
      ensures open ==> inq.Valid() && state == IDLE && past == old(past) + [old(parsed)] && !rsp.sending && result == 0
      ensures open ==> rsp.bytesLeft == 0 && rsp.base == |rsp.pcb.wire|
      ensures statuses == old(statuses) + [old(result)]
      ensures !open ==> parsed == old(parsed) && past == old(past) && Adds(old(calls), calls)
    {
      hide Barred, Queue.Valid, ResponseContext.Valid, ResponseContext.Quiet, Framed, Live;
      statuses := statuses + [result];
      if peerClosing {
        CloseHttpContext();
      } else if head.keepAlive {
        ResetHttpContext();
        AtRest();
      } else {
        CloseHttpContext();
      }
    }

    /** CGI_Cancel. */
    method Cancel()
      modifies this`calls
      ensures calls == if handler.Some? then old(calls) + [Cancelled] else old(calls)
    {
      if handler.Some? {
        calls := calls + [Cancelled];
      }
    }

    /** The handler is told that something has gone wrong; a fatal error also closes the connection. */
    method CancelOn(limit: int)
      requires limit < 0 && Quits()
      modifies this`open, this`state, this`result, this`head, this`contentReceived, this`handler, this`fileOpen
      modifies this`calls, this`peerClosing
      modifies inq`length, inq`consumed, inq`chain, inq`totLen, inq`offset, inq`freed, inq.buffer
      ensures Valid() && open == old(open && result > ABORT)
      ensures calls == old(calls) + (if old(open && result <= limit && handler.Some?) then [Cancelled] else [])
                       + (if old(open && result <= ABORT && handler.Some?) then [Finished] else [])
      ensures old(calls) <= calls && (open ==> handler == old(handler))
      ensures old(open && result > ABORT) ==>
                && unchanged(inq) && unchanged(inq.buffer) && state == old(state) && result == old(result)
                && peerClosing == old(peerClosing)
    {
      hide Barred, Queue.Valid, ResponseContext.Valid, ResponseContext.Quiet, Framed, HeadOf, Routed, Handed;
      hide HasContent;
      if open && result <= limit {
        Cancel();
      }
      if open && result <= ABORT {
        CloseHttpContext();
      }
    }

    /** A connection at rest, or with a fatal error. */
    ghost predicate Quits()
      reads this, inq, inq.buffer, inq.pcb`credit, rsp, rsp.sendBuffer, rsp.pcb`wire, rsp.pcb`acked
    {
      (open && result > ABORT ==> Valid()) && (!open ==> Valid()) && (open ==> Wired() && inq.Valid() && Discreet())
    }

    lemma KeepsResult(t: Turn, was: Midway)
      requires t != Opens && was.result > ABORT
      ensures Moved(t, was) && open ==> result > ABORT
    {
      hide Turned;
    }

    /** Why a connection is closed, if not by the peer: a fatal error, or the end of a request that does not keep it. */
    ghost predicate Parts(was: seq<int>)
      reads this`parsed, this`bad, this`said, this`statuses
    {
      Fatal() || (statuses != was && !HeadOf(parsed.lines).keepAlive)
    }

    /** Of an error the handler is told, last of all, and of nothing else that it is cancelled. */
    ghost predicate Notified(was: seq<Callback>, limit: int)
      reads this`calls, this`result, this`handler
    {
      if result <= limit && handler.Some? then
        calls != [] && calls[|calls| - 1] == Cancelled && Adds(was, calls[..|calls| - 1])
      else Adds(was, calls)
    }

    /** What a callback does with an event, and with an error that it leads to. */
    method Handle(caller: Caller, read: Handler, limit: int)
      requires Obeys(read) && Ready() && open && limit < 0
      modifies this, rsp, rsp.sendBuffer, inq.pcb`credit
      modifies rsp.pcb`wire, rsp.pcb`refused, rsp.pcb`room
      modifies inq`length, inq`consumed, inq`chain, inq`totLen, inq`offset, inq`freed, inq.buffer
      ensures Valid() && Onward() && (open ==> peerClosing == old(peerClosing))
      ensures old(rsp.sending && result > ABORT) && rsp.pcb.refused == old(rsp.pcb.refused) ==>
                Moved(old(Due(caller, read, 0)), old(Halfway()))
      ensures past == old(past) ==> old(calls + DueOffer()) <= calls
      ensures open && past == old(past) ==> Notified(old(calls + DueOffer()), limit)
      ensures AtOnceOnly(old(statuses), old(past), old(rsp.sending), old(rsp.pcb.refused))
      ensures !open ==> old(peerClosing) || Parts(old(statuses))
    {
      hide Due, Loses, Turned, Barred, Valid, AtOnceOnly, Fatal, HeadOf, ResponseContext.Quiet, ResponseContext.Valid;
      hide Queue.Valid;
      ghost var due, before, offer := Due(caller, read, 0), Halfway(), calls + DueOffer();
      hide DueOffer, Adds, Notified;
      HttpRequestProc(caller, read);
      ghost var heard := calls;
      if due != Opens && before.result > ABORT {
        KeepsResult(due, before);
      }
      CancelOn(limit);
      if past == before.past {
        ToldOfErrors(offer, heard, limit);
      }
    }

    lemma ToldOfErrors(was: seq<Callback>, heard: seq<Callback>, limit: int)
      requires Adds(was, heard) && heard <= calls
      ensures was <= calls
      ensures calls == heard + (if result <= limit && handler.Some? then [Cancelled] else []) ==> Notified(was, limit)
    {
      if result <= limit && handler.Some? {
        assert (heard + [Cancelled])[..|heard|] == heard;
      }
    }

    lemma Rested()
      requires Valid() && open
      ensures Ready() && Wired() && inq.Valid() && Discreet() && (rsp.sending ==> state >= SENDING_HEADER)
      ensures result > ABORT
    {
      hide Barred, Live, Resting, ResponseContext.Quiet, ResponseContext.Valid, Queue.Valid;
      AtRest();
    }

    /** A segment arrives, or the peer closes its side. */
    method OnHttpReceive(p: Option<seq<Pbuf>>, read: Handler)
      requires Obeys(read) && Valid() && open && (p.Some? ==> p.value != [])
      modifies this, rsp, rsp.sendBuffer, inq, inq.buffer, inq.pcb`credit
      modifies rsp.pcb`wire, rsp.pcb`refused, rsp.pcb`room
      ensures Valid() && Onward() && (open ==> peerClosing == (p.None? || old(peerClosing)))
      ensures inq.received == if p.Some? then old(inq.received) + Payload(p.value) else old(inq.received)
      ensures inq.delivered == if p.Some? then old(inq.delivered) + multiset(p.value) else old(inq.delivered)
      ensures old(rsp.sending) && rsp.pcb.refused == old(rsp.pcb.refused) ==>
                Moved(old(Due(Recv, read, 0)), old(Halfway()).(keeps := p.Some? && old(Halfway()).keeps))
      ensures past == old(past) && (p.Some? || old(state) != IDLE) ==> old(calls + OfferFor(p)) <= calls
      ensures open && past == old(past) ==> Notified(old(calls + OfferFor(p)), -400)
      ensures AtOnceOnly(old(statuses), old(past), old(rsp.sending), old(rsp.pcb.refused))
      ensures !open ==> p.None? || old(peerClosing) || Parts(old(statuses))
      ensures p.None? && old(state) == IDLE ==> !open
    {
      hide Due, Loses, Turned, Moved, Parts, Payload;
      hide Barred, Valid, Ready, Live, ResponseContext.Quiet, ResponseContext.Valid, Queue.Valid;
      Rested();
      if p.None? && state == IDLE {
        CloseHttpContext();
        return;
      }
      TakeIn(p);
      Handle(Recv, read, -400);
    }

    /** Called at intervals; after too long a silence the connection is closed. */
    method OnHttpPoll(timeout: bool, read: Handler)
      requires Obeys(read) && Valid() && open
      modifies this, rsp, rsp.sendBuffer, inq.pcb`credit
      modifies rsp.pcb`wire, rsp.pcb`refused, rsp.pcb`room
      modifies inq`length, inq`consumed, inq`chain, inq`totLen, inq`offset, inq`freed, inq.buffer
      ensures Valid() && Onward() && (timeout ==> !open)
      ensures timeout && old(handler).Some? ==> calls == old(calls) + [Cancelled, Finished]
      ensures old(rsp.sending) && !timeout && rsp.pcb.refused == old(rsp.pcb.refused) ==>
                Moved(old(Due(Poll, read, 0)), old(Halfway()))
      ensures !timeout && past == old(past) ==> old(calls + DueOffer()) <= calls
      ensures open && past == old(past) ==> Notified(old(calls + DueOffer()), -1)
      ensures AtOnceOnly(old(statuses), old(past), old(rsp.sending), old(rsp.pcb.refused))
      ensures !open ==> timeout || old(peerClosing) || Parts(old(statuses))
    {
      hide Due, Loses, Turned, Moved, Parts;
      hide Barred, Valid, Ready, Live, ResponseContext.Quiet, ResponseContext.Valid, Queue.Valid;
      Rested();
      if timeout {
        Cancel();
        CloseHttpContext();
        return;
      }
      Handle(Poll, read, -1);
    }

    /** The peer has acknowledged `len` bytes. */
    method OnHttpSent(len: nat, read: Handler)
      requires Obeys(read) && Valid() && open && rsp.pcb.acked + len <= |rsp.pcb.wire|
      modifies this, rsp, rsp.sendBuffer, inq.pcb`credit
      modifies rsp.pcb`wire, rsp.pcb`refused, rsp.pcb`room, rsp.pcb`acked
      modifies inq`length, inq`consumed, inq`chain, inq`totLen, inq`offset, inq`freed, inq.buffer
      ensures Valid() && Onward()
      ensures old(rsp.sending) && rsp.pcb.refused == old(rsp.pcb.refused) ==>
                Moved(old(Due(Sent, read, len)), old(Halfway()))
      ensures past == old(past) ==> old(calls + DueOffer()) <= calls
      ensures open && past == old(past) ==> Notified(old(calls + DueOffer()), -1)
      ensures AtOnceOnly(old(statuses), old(past), old(rsp.sending), old(rsp.pcb.refused))
      ensures !open ==> old(peerClosing) || Parts(old(statuses))
    {
      hide Due, Loses, Turned, Moved, Parts;
      hide Barred, Valid, Ready, Live, ResponseContext.Quiet, ResponseContext.Valid, Queue.Valid;
      Rested();
      Acknowledged(len, read);
      Handle(Sent, read, -1);
    }

    /** The connection is gone already. */
    method OnHttpError()
      requires Valid() && open
      modifies this, inq`length, inq`consumed, inq`chain, inq`totLen, inq`offset, inq`freed, inq.buffer
      ensures Valid() && !open && (old(handler).Some? ==> calls == old(calls) + [Cancelled, Finished])
    {
      hide Barred, Valid, Ready, Live, ResponseContext.Quiet, ResponseContext.Valid, Queue.Valid;
      Rested();
      Cancel();
      FreeHttpContext();
    }
  }
}
