# A verified model of the LambdaIOT HTTP server

LambdaIOT/httpd is an HTTP server for a small board. It takes requests in through a 128-byte line
buffer, sends responses out through a 256-byte buffer, and almost all of its code works step by step on
pieces of a stream: lines are cut out of whatever has arrived, tags of a page are replaced through a
64-byte window, chunks are coded in place behind bytes that are still unsent, escapes are decoded into the
string they are read from. For each of these this project has the code, statement by statement as
Dafny methods on the same buffers and fields, and next to it the simple version that sees everything at
once; it is proved that the two agree, for all inputs, all block sizes and all orders of events.

Check everything with `dafny verify dfyconfig.toml`.

## How the project is laid out

- `Bytes.dfy`, `Strings.dfy`, `Limits.dfy`: octets, in-place moves, case-blind comparison (`Strnicmp`), and the
  sizes that several parts share.
- `Lwip.dfy`: what a connection sees of the TCP stack. A write takes all of its data or fails, the room
  for sending is any number and any number again behind a write, and ghost fields record the bytes accepted,
  the writes refused, the bytes acknowledged, and the window credit handed back.
- `InputQueue.dfy`: packet buffers, the line buffer, and who owns which bytes.
- `Framing.dfy`: a reader that takes a stream one byte at a time without any buffer; this is what a stream
  of requests means. A line that reaches 128 bytes loses its first 64.
- `HeaderLines.dfy`, `Spelling.dfy`: what the lines of a head say, in the decimal numerals and names in which they are
  written, and the letters, digits and marks that all of this rests on.
- `HttpCore.dfy`: the context of a connection with its callbacks (receive, poll, sent, error), the
  receiving loop, the gate, and the steps of a response. `Valid` holds between any two events; `Due` says
  what an event does to a response, and `Heard` what a handler has been called for.
- `Response.dfy`, `Chunked.dfy`: the send side, and the chunked coding of section 7.1 of RFC 9112 with a
  decoder for it.
- `Access.dfy`: the installed table and the exempt extensions in words: who takes what, where, and from whom.
- `Guarantees.dfy`: what `Valid` means for requests, responses, handlers and the gate. `Witnesses.dfy`,
  `Ranges.dfy`: requests for which that is less than one would expect, written out, and what becomes of a range.
- `SsiScanner.dfy`, `Template.dfy`: a scanner for a whole page, and what a page of text and tags means.
- `WebContent.dfy`, `SsiCalls.dfy`: the window that replaces tags as it reads, and what a single call serves,
  from what is known before the call.
- `Delivery.dfy`, `EmptyBlocks.dfy`, `Handlers.dfy`, `FileResponse.dfy`, `FileRequest.dfy`: whole responses, when
  their first and last blocks are empty, what the peer decodes, the reader of a file together with the send side,
  and a connection that serves a file, event by event.
- `RequestLine.dfy`: from a request line to a decoded path, an extension and a handler.
- `FileTable.dfy`, `Sessions.dfy`, `Routing.dfy`, `FormBody.dfy`, `Connections.dfy`: the table of open
  files, sessions, the ordered list of handlers, posted bodies, and the pool of connection contexts.
- `UrlCoding.dfy`, `Base64.dfy`: the decoders that write into the string they read (section 2.1 of
  RFC 3986, section 4 of RFC 4648).

## The main results

- **Requests.** At every rest of an open connection, the requests answered, the lines and the body bytes taken in
  and the state are those of the one-byte reader on the bytes consumed, no matter how the stream was cut or what
  polls and acknowledgements came in between; lines that are too long for the line buffer are no exception. Of two
  connections with the same bytes, one has answered the first of the requests the other has answered
  (`SegmentationIndependence`). For a stream of well-formed requests with lines of at most 128 bytes (line break
  included) the requests answered are the first ones sent (`ServesTheStream`). This holds unless a request was
  turned away with its body unread or a handler took more than its body; what these two do to the stream is stated
  exactly (`TurnedAwayExactly`, `OverrunRobsTheNext`). The receiving loop ends for every content of buffer and
  chain, with everything read but the beginning of a line, or a handler that has taken nothing of what it was
  offered last. What a head says is pinned to the text of its lines: the decimal number of a `Content-Length` line,
  the path as it was sent, `keep-alive` and `close`, the credentials, and that no other line counts
  (`ContentLengthMeans`, `AsSent`, `KeepAliveOrClose`, `CookieMeans`, `OtherLinesSayNothing`). Bytes, window credit
  and packet buffers are conserved, and a reset for the next request touches none of them.
- **Handlers.** A request that passes the gate and has a method that its path takes is offered to its handler, and
  no other is; a response that is no error is given only after the handler has heard of the head, of the content,
  and that the request is complete; and the status is the one that the handler set (`ReachesItsHandler`,
  `InvitedIn`). What a handler takes is what leaves the queue. A connection is closed only by the peer, a time-out,
  a malformed head, a post where nothing can be posted, a handler's fatal error, or the end of a request that does
  not ask to keep it (`OnHttpReceive`, `OnHttpPoll`, `OnHttpSent`).
- **Responses.** What is on the wire plus what is buffered is always the head followed by the loads in order. There
  is one head per request, it comes first, and a complete response has no more bytes unacknowledged than were in
  flight when its request came in. When a request ends with bytes of its response unsent is stated exactly, in terms
  of the state before the event and of the room the stack has (`HttpResponseProc`). So is what each event does to a
  response under way: what is buffered is sent, or the next block is loaded and sent, or the response ends, or it
  rests; this holds for the callbacks as a whole. A file of n bytes is complete on the wire after n + 2
  acknowledgements of everything sent, if there is room for a full buffer each time and no write is refused
  (`FileCompletes`). The chunked coding is decoded to exactly the blocks if and only if there are blocks and neither
  the first nor the last is empty.
- **Pages.** The window refines the whole-page scanner after every call, for all block sizes, and ends after at most
  as many calls as the page has bytes, plus one. A page is delivered with all its tags replaced if every tag is
  closed and none opens within the last 64 bytes; the peer then decodes what the template means exactly if the page
  does not start with a tag and does not end in a tag that stands for nothing (`PeerGetsTheMeaning`). A plain file
  arrives as it is, through any sequence of partial writes (`ServeFile`), and through any sequence of events of a
  connection (`FileServed`).
- **The gate.** With the table that is installed, a request is barred exactly when its decoded path is one of the
  protected ones, its extension is not exempt, no run behind one of its dots is too long, and no session vouches for
  it (`BarredExactly`); percent-encoding the path makes no difference. Of a barred request the handler gets the
  single lines that it asked for and how the request ends, and nothing of what comes in between; and only the head
  is sent, but for two kinds of requests (`BarredGetsOnlyTheHead`, `BarredHearsTheEnd`). A handler's part in
  sending, the lines it adds to the head and the content it offers, is not gated.
- **The pool.** Contexts in use and connections that know a context are in bijection over all runs, and no
  address has more than its share.
- **Decoders.** Both in-place decoders compute the one-pass decoding of their input; they invert every encoder
  that keeps to the rules.

## Where the code does not do what one would expect

These are stated as they are, with exact conditions where the code is right.

- The handler for uploads gets the lines of a request before the gate has looked at it, so that a file name sent
  without a session is in its hands (http_core.c:1192, cgi/cgi_upload.c:81-107): `UploadHearsTheFileName`.
- The end of a response can be dropped, and the next response is then written behind what is there. A response
  under way loses what is buffered when the stack has more room than that at the wrong event: the first
  acknowledgement of an error head (http_core.c:1489-1490, 1554-1561), or one at which the handler has no more
  content without having announced its last block. The head of a barred request loses what the stack has no
  room for, if its handler has no content. `HttpResponseProc` ensures that this is so exactly then (`Loses`);
  `NotFoundIsCut` and `BarredIsCut` are the two heads, `UnsentIsMissing` says what is missing.
- A response stands still when 254 bytes of its head are still buffered and the stack has room for more: there is no
  room left to load anything, and what is buffered is only sent behind what is loaded (http_cgi.c:330,
  http_core.c:1489-1490): `Stalls`. With fewer bytes buffered it goes on (`FileEvent`).
- Content is made for barred requests in two cases, and in no others: `/api/files.cgi` lists a directory for a GET
  (`ListingForAnyone`), and a page asked for with a range is read from address zero on, since no file is open
  (`RangeForAnyone`, where the number of bytes announced is not negative).
- The first digit of a range is lost. `RangeKeptExactly`: the range kept is the one that was meant exactly if its
  start has a leading zero to spare, or is a single zero and the end is missing or zero. A start of one digit is
  even read as minus the end (`OrdinaryRange`), so that bytes are announced although no file is open.
- A request with a body that is answered without reading the body (a redirect, a 404) leaves the body in the
  line buffer, where it is read as the next request: server and reader are in step, on any bytes that follow,
  exactly when no body was announced (`TurnedAwayExactly`; `UnreadByte` is the shortest example).
- The login handler consumes all bytes it is offered, also those of the next request
  (cgi/cgi_auth.c:112-121): in step exactly when nothing is taken in excess (`OverrunRobsTheNext`).
- A run of 8 or more bytes behind a dot of the path does not fit the extension; its NUL empties the path, which then
  has no handler: `SpillsExactly` and `BarredExactly` say when, `LongExtensionIsNotFound` is an example below /app/.
- A page that starts with a tag serves an empty first block, and the next chunk then begins with the line break of a
  chunk that was never sent (http_web.c:372-376, http_cgi.c:351-359): `LeadingTagBreaksChunks`, for pages of any
  length. A page that ends in a tag that stands for nothing has an empty last block, and its chunks never end:
  `LastEmptyMeans`, `PeerGetsTheMeaning`.
- A tag close to the end of a page can be left as it is, because the window is flushed unscanned once the file has
  been read to its end. It is, whenever a call starts at or before it with at most 64 bytes to go
  (`LateTagStaysRaw`): on every page of at most 64 bytes whatever the block sizes (`ShortPageStaysRaw`), and on
  longer ones if the first block happens to end there (`FirstSizeDecides`). For a page with one tag,
  `SingleReferenceExact` says exactly of which runs.
- The last block of a chunked response gets a tail of 7 bytes, with room set aside for 2: `SsiIsHonest`
  gives the exact condition on what is left to serve before the call. `TaglessPageOverflows`: a page without tags
  from 240 to 244 bytes runs over the 256 bytes.
- `DecodeB64` takes every byte from `/` up that is not a letter, a digit or `=` as 63 (utils.c:246), and padding
  anywhere: it agrees with the decoder of section 4 of RFC 4648 exactly on the encodings and on the texts it
  rejects itself (`AgreesWithStandard`).
- `URLDecode` leaves the last two bytes of its input repeated behind the result; callers have to use the
  length it returns.
- Only the first session whose token occurs in the header counts: `AuthorizedExactly`.
- The length of a range that starts behind the end of the file is negative: `RangeSizeExact`.

## Model

| member | source | states |
|---|---|---|
| Strings.Strnicmp | LambdaIOT/httpd/utils.c:153-170 | zero exactly when the strings agree, letter case apart, on their first n characters |
| Strings.ExactOnSymbols | LambdaIOT/httpd/utils.c:145-170 | against a pattern without letters the case-blind comparison is exact, as the tag delimiters need |
| Spelling.UpperExactly | LambdaIOT/httpd/utils.c:145-170 | the comparison takes two bytes for the same exactly if they are, or are the two cases of one of the 26 letters |
| Spelling.SpeltIsLike | LambdaIOT/httpd/utils.c:145-170 | a line starts like a name exactly if its bytes read as the name's characters |
| Spelling.MarksSpelled | LambdaIOT/httpd/http_web.c:345-395 | the marks of tags, paths, escapes and chunks are these characters |
| InputQueue.Queue.Enqueue | LambdaIOT/httpd/http_core.c:588-633 | a segment adds its bytes to those received and keeps conservation, credit and ownership, in the line buffer or in the chain |
| InputQueue.Queue.Dequeue | LambdaIOT/httpd/http_core.c:900-961 | no byte that waits is lost or reordered; afterwards the chain is empty or the line buffer is full; credit and ownership are kept |
| InputQueue.Queue.FreeRead | LambdaIOT/httpd/http_core.c:931-957 | exactly the packet buffers read to their end are freed and credited, the others stay in their order, and the waiting bytes stay the same |
| InputQueue.Queue.Shift | LambdaIOT/httpd/http_core.c:1202-1220 | the bytes dealt with move from the waiting bytes to the consumed ones, the rest to the front |
| InputQueue.Queue.Release | LambdaIOT/httpd/http_core.c:359-368 | afterwards every packet buffer ever handed over has been freed |
| InputQueue.FreedOnce | LambdaIOT/httpd/http_core.c:943-957 | of a queue in any state: a packet buffer handed over is freed once or still in the chain, never both |
| InputQueue.OneOwner | LambdaIOT/httpd/http_core.c:588-633 | two connections never hold or free the same packet buffer |
| Framing.FirstLineSettles | LambdaIOT/httpd/http_core.c:1026-1095 | the first line settles method and target, and no later line changes them |
| HeaderLines.FirstLineMeans | LambdaIOT/httpd/http_core.c:1030-1050 | a line that starts with "GET " or "POST " gives the method and, whole, what follows as the target, and no other line can be the first |
| HeaderLines.NumeralIsRead | LambdaIOT/httpd/http_core.c:1097-1102 | the decimal numeral of any number, with any spaces before it, is read as that number |
| HeaderLines.ContentLengthMeans | LambdaIOT/httpd/http_core.c:1097-1102 | a Content-Length line, in any letter case, announces the number that it gives |
| HeaderLines.ConnectionMeans | LambdaIOT/httpd/http_core.c:1103-1111 | a Connection line keeps the connection exactly if it says keep-alive, with a small or a capital beginning of both words |
| HeaderLines.KeepAliveOrClose | LambdaIOT/httpd/http_core.c:1103-1111 | keep-alive keeps it and close does not |
| HeaderLines.CookieMeans | LambdaIOT/httpd/http_core.c:1171-1190 | the credentials are the value of the last line for them, as far as 126 bytes go |
| HeaderLines.ValueMeans | LambdaIOT/httpd/http_core.c:1171-1190 | the value is what stands behind the first colon and the spaces after it |
| HeaderLines.OtherLinesSayNothing | LambdaIOT/httpd/http_core.c:1097-1199 | a line under none of five names adds nothing to the head |
| HeaderLines.RecognizedExactly | LambdaIOT/httpd/http_core.c:1097-1199 | the lines the server looks at are exactly those under eight names |
| Framing.FeedLine | LambdaIOT/httpd/http_core.c:992-1200 | a line and its break are one line to the reader |
| Framing.FeedOverlong | LambdaIOT/httpd/http_core.c:1203-1212 | a line that reaches the size of the line buffer loses its first half |
| Framing.NeverBack | LambdaIOT/httpd/http_core.c:900-1388 | a reader that has read anything is not where it was between two requests |
| Framing.BodyIsMissed | LambdaIOT/httpd/http_core.c:1250-1295 | one that skips a body never agrees again with one that reads it |
| Framing.FeedBody | LambdaIOT/httpd/http_core.c:1321-1368 | bytes of a body are part of it until it is complete |
| Framing.ReadBackAll | LambdaIOT/httpd/http_core.c:900-1388 | pipelined requests, written out one after another, are read back one by one |
| HttpCore.RequestContext.constructor | LambdaIOT/httpd/http_core.c:189-204 | a context taken for a connection starts idle and valid |
| HttpCore.RequestContext.TakeLine | LambdaIOT/httpd/http_core.c:1026-1199 | a line is taken exactly when it is acceptable; the head is always what the lines taken add up to, the handler the one for the target, and a handler that wants them has got exactly the lines the server does not look at |
| HttpCore.RequestContext.HeaderReceived | LambdaIOT/httpd/http_cgi.c:144-152 | the line goes to a handler that has a callback for lines |
| HttpCore.RequestContext.ParseLines | LambdaIOT/httpd/http_core.c:986-1201 | the bytes before the result, read by the one-byte reader, give exactly the lines taken and the state; behind it there is no line break left |
| HttpCore.RequestContext.TakeLines | LambdaIOT/httpd/http_core.c:986-1222 | the consumed bytes and the request stay in step, also where a line is too long, and a full buffer always loses bytes |
| HttpCore.RequestContext.HalveBuffer | LambdaIOT/httpd/http_core.c:1203-1212 | half of a full buffer goes, fewer bytes wait, and the one-byte reader has dropped the same bytes of the line |
| HttpCore.RequestContext.CheckAccess | LambdaIOT/httpd/http_core.c:1253-1266 | the redirect is set exactly for a handled, protected, non-exempt request without a matching session |
| HttpCore.RequestContext.HeadersReceived | LambdaIOT/httpd/http_cgi.c:154-227 | the handler is called exactly for an authorized request with a method it takes; otherwise the request is redirected, not found or refused |
| HttpCore.RequestContext.Admit | LambdaIOT/httpd/http_core.c:1250-1295 | the request goes on to its body or its end, when its handler has heard of the head and set no error, or is turned away; the reader agrees with either |
| HttpCore.RequestContext.TurnAway | LambdaIOT/httpd/http_core.c:1291-1295 | the response begins with the body unread, which is recorded exactly if one was announced |
| HttpCore.RequestContext.TakeHead | LambdaIOT/httpd/http_core.c:970-1295 | the head is complete, or more lines are in the chain and fewer bytes wait, or nothing waits but the beginning of a line |
| HttpCore.RequestContext.TakeBody | LambdaIOT/httpd/http_core.c:1332-1367 | the bytes handed over are the body's, and the body ends where the reader says |
| HttpCore.RequestContext.OfferContent | LambdaIOT/httpd/http_core.c:1321-1345 | the handler is offered all of the line buffer, and the result is what it sets |
| HttpCore.RequestContext.ReceiveBody | LambdaIOT/httpd/http_core.c:1321-1368 | the handler is offered what is in the line buffer; exactly the bytes it takes leave the queue, and going on means that fewer wait |
| HttpCore.RequestContext.Step | LambdaIOT/httpd/http_core.c:900-1388 | an iteration either leaves fewer bytes waiting or is the last; the state never goes back; a handler in the middle of a body is offered what waits, up to 128 bytes |
| HttpCore.RequestContext.TakeContent | LambdaIOT/httpd/http_core.c:1321-1388 | the last iteration ends with the chain read, or nothing taken, or the handler told that the request is complete |
| HttpCore.RequestContext.RequestReceived | LambdaIOT/httpd/http_core.c:1370-1379 | the handler is told, and the status is the one it sets, or 200 |
| HttpCore.RequestContext.ReceiveAll | LambdaIOT/httpd/http_core.c:900-1388 | the receiving loop ends, keeps the framing, offers a body to its handler, and leaves a response that is under way alone |
| HttpCore.RequestContext.SendHeader | LambdaIOT/httpd/http_core.c:1504-1558 | the head is sent once, when nothing has been sent for the request yet, as far as the stack has room for it |
| HttpCore.RequestContext.NothingToSay | LambdaIOT/httpd/http_web.c:268-290 | a handler that reads files has nothing to say of an empty one, nor one that lists directories to anything but a GET |
| HttpCore.RequestContext.LoadBody | LambdaIOT/httpd/http_cgi.c:302-389 | one more block is loaded, or nothing is due, or the request ends, exactly as the stage, the acknowledgements and the handler's answer say; the handler hears that all is sent exactly at a complete end |
| HttpCore.RequestContext.SendBody | LambdaIOT/httpd/http_core.c:1576-1603 | the same with what the stack takes of it; what is loaded is sent with all that is buffered unless a write is refused |
| HttpCore.RequestContext.Begin | LambdaIOT/httpd/http_core.c:1504-1603 | a new response waits behind its head, and a redirect goes on to its body at once, which ends it if the handler has nothing to say |
| HttpCore.RequestContext.HttpResponseProc | LambdaIOT/httpd/http_core.c:1479-1606 | exactly what is due happens: bytes that cannot go out at once are sent first, a head is left only when bytes of it are acknowledged, the next block is loaded whenever the handler has one, and the end comes when it has none or all is acknowledged; a request ends with bytes of its response unsent exactly if it is a barred head that does not fit and nothing follows, or the stack has more room than the bytes still buffered and the response is an error head or the handler has no more |
| HttpCore.RequestContext.ResetHttpContext | LambdaIOT/httpd/http_core.c:259-314 | the next request starts afresh, no received byte is touched, and what was still buffered is dropped |
| HttpCore.RequestContext.EndOfRequest | LambdaIOT/httpd/http_core.c:1394-1411 | the connection is kept exactly if that was asked for and the peer is not closing |
| HttpCore.RequestContext.CloseHttpContext | LambdaIOT/httpd/http_core.c:316-357 | whether or not the stack can close it, the context is detached and every packet buffer freed |
| HttpCore.RequestContext.FreeHttpContext | LambdaIOT/httpd/http_core.c:359-402 | the handler is told, the file is closed, and every packet buffer is given back |
| HttpCore.RequestContext.HttpRequestProc | LambdaIOT/httpd/http_core.c:891-1422 | one event: all invariants are kept, between resets state, head and blocks only advance, a response under way does what is due, and a request ends with the event that completes it only by a redirect or a refused write |
| HttpCore.RequestContext.OnHttpReceive | LambdaIOT/httpd/http_core.c:547-656 | all invariants are kept, exactly the bytes and packet buffers of the segment are added, a body is offered to its handler, a response does what is due, and the connection is closed only for one of the reasons there are |
| HttpCore.RequestContext.OnHttpPoll | LambdaIOT/httpd/http_core.c:664-701 | the same for polls, which never take a response beyond its head; a time-out tells the handler and closes |
| HttpCore.RequestContext.OnHttpSent | LambdaIOT/httpd/http_core.c:722-753 | the same for acknowledgements, which take a response on |
| HttpCore.RequestContext.CancelOn | LambdaIOT/httpd/http_core.c:684-689 | a handler is told of a failed request, and a fatal error closes the connection; nothing else changes |
| HttpCore.RequestContext.OnHttpError | LambdaIOT/httpd/http_core.c:775-793 | the handler is told, the context is free, and every packet buffer freed |
| Guarantees.AnswersInOrder | LambdaIOT/httpd/http_core.c:900-1421 | the requests answered are the first ones of everything received, read in one go, lines of any length included |
| Guarantees.CaughtUp | LambdaIOT/httpd/http_core.c:900-1247 | while a head comes in, everything received has been read as the one-byte reader reads it |
| Guarantees.SegmentationIndependence | LambdaIOT/httpd/http_core.c:547-656 | of two connections with the same bytes, cut differently, one has answered the first of the requests the other has; both in a head, they have read the same |
| Guarantees.ServesTheStream | LambdaIOT/httpd/http_core.c:900-1421 | of well-formed requests with lines that fit, however cut, nothing is thrown away and the first ones are answered, as long as none was turned away with its body unread and no handler took too much |
| Guarantees.OverrunRobsTheNext | LambdaIOT/httpd/cgi/cgi_auth.c:112-121 | server and reader are in step after a handler took the end of a body exactly when it took nothing in excess, whatever the excess is |
| Guarantees.OverrunTakesTheLine | LambdaIOT/httpd/cgi/cgi_auth.c:112-121 | an excess without a line break is missing from the next line |
| Guarantees.TurnedAwayExactly | LambdaIOT/httpd/http_core.c:1291-1295 | on whatever bytes follow a request turned away, server and reader agree exactly when its head announces no body |
| Guarantees.HeadBeforeBlocks | LambdaIOT/httpd/http_core.c:1504-1603 | wire and buffer hold the head and then the loads; no load without a head, no head before the request is complete |
| Guarantees.UnsentIsMissing | LambdaIOT/httpd/http_core.c:1394-1405 | what is still buffered when a request ends is missing at the end of its response on the wire |
| Guarantees.AsSent | LambdaIOT/httpd/http_core.c:1030-1086 | the path that a request line asks for is the one that was sent, as it is or percent-encoded |
| Guarantees.ReachesItsHandler | LambdaIOT/httpd/http_cgi.c:154-227 | with the installed table, the handler of a path hears of a request exactly if the path takes its method and the gate lets it through, and otherwise it is redirected, or not found, or does not keep the connection; only a handler that was told of the whole request has it answered without an error |
| Guarantees.InvitedIn | LambdaIOT/httpd/http_cgi.c:24-40 | a GET below /app/ and a POST of an upload reach their handler with a session that vouches for them |
| Guarantees.BarredExactly | LambdaIOT/httpd/http_core.c:1253-1266 | a request is barred exactly when its path, the length of its runs, its extension, none of the eleven that everyone gets, and the sessions say so |
| Guarantees.ProtectedNeedsSession | LambdaIOT/httpd/http_core.c:1253-1266 | what lies below /app/, and the two services below /api/, with runs that fit the extension, is barred without a session matching token and address, however the path is percent-encoded, unless its extension is one of the eleven |
| Guarantees.PagesBelowApp | LambdaIOT/httpd/http_core.c:1253-1266 | every page below /app/ that ends in .shtml, .html or .htm is barred without a session, and none that ends in one of the eleven extensions, in any letter case |
| Guarantees.ServicesBelowApi | LambdaIOT/httpd/http_core.c:1253-1266 | the listing and the upload are barred without a session |
| Guarantees.BarredGetsOnlyTheHead | LambdaIOT/httpd/http_core.c:1250-1295 | the handler of a barred request has got the stray lines if it wants lines, hears nothing else but the cancellation, and nothing but the head is sent unless a listing is asked for with GET or a page with a range that announces bytes |
| Guarantees.BarredHearsTheEnd | LambdaIOT/httpd/http_cgi.c:94-101 | open or closed, a barred request is to its handler no more than cancelled, all sent or finished |
| Guarantees.LongExtensionIsNotFound | LambdaIOT/httpd/http_core.c:876-882 | a path below /app/ that ends in a run of 8 bytes has no handler |
| Witnesses.UploadHearsTheFileName | LambdaIOT/httpd/cgi/cgi_upload.c:81-107 | the file name of a barred upload has reached the handler |
| Witnesses.ListingForAnyone | LambdaIOT/httpd/cgi/cgi_files.c:104-145 | a listing is loaded for a barred request |
| Witnesses.RangeForAnyone | LambdaIOT/httpd/http_web.c:225-313 | a page asked for with a range, barred, is served from address zero on |
| Witnesses.OrdinaryRange | LambdaIOT/httpd/http_core.c:1136-1168 | what the server makes of an ordinary range |
| Witnesses.OrdinaryRangeLine | LambdaIOT/httpd/http_core.c:1136-1168 | that is the range it keeps |
| Witnesses.OrdinaryRangeAnnounces | LambdaIOT/httpd/http_web.c:225-238 | which announces bytes although no file is open |
| Ranges.RangeRead | LambdaIOT/httpd/http_core.c:1136-1168 | what is read for start and end of a range |
| Ranges.RangeKeptExactly | LambdaIOT/httpd/http_core.c:1136-1168 | for every start and end, when the range kept is the one that was meant |
| Witnesses.UnreadByte | LambdaIOT/httpd/http_core.c:1291-1295 | a body of one byte, left unread, begins the next request |
| Witnesses.NotFoundIsCut | LambdaIOT/httpd/http_core.c:1489-1561 | the rest of a 404 head is dropped when the stack has room for all of it |
| Witnesses.BarredIsCut | LambdaIOT/httpd/http_core.c:1504-1603 | the rest of a redirect is dropped when the stack has no room for all of it |
| Response.ResponseContext.Start | LambdaIOT/httpd/http_core.c:1007-1016 | the counters start over at the present ends of the wire and of the acknowledgements |
| Response.ResponseContext.SendBuffered | LambdaIOT/httpd/http_core.c:1424-1477 | whatever room the stack has, what is sent and what stays make up the same bytes in order; all that there is room for is sent unless a write is refused |
| Response.ResponseContext.SendHead | LambdaIOT/httpd/http_core.c:1539-1552 | the head is the first thing buffered, and the response has begun exactly if no write failed |
| Response.ResponseContext.LoadContentToSend | LambdaIOT/httpd/http_cgi.c:302-389 | blocks go behind what is buffered, and a handler may wait for more room; the end is reported exactly if the response is complete, there is nothing to ask, or the handler has no more; it is complete only if the last block was loaded, the buffer is empty, and no more bytes are unacknowledged than were in flight when the request came in |
| Response.ResponseContext.AppendChunk | LambdaIOT/httpd/http_cgi.c:343-376 | a block coded in place, 10 bytes further on and then moved, becomes size line, data and tail behind the unsent bytes |
| Response.ResponseContext.Append | LambdaIOT/httpd/http_cgi.c:335-342 | a plain block goes behind the unsent bytes |
| Response.ResponseContext.PeerDecodes | LambdaIOT/httpd/http_cgi.c:343-376 | what a finished response has put on the wire is its head and a body the peer decodes to the blocks, exactly if the first and last are not empty |
| Chunked.NextLoad | LambdaIOT/httpd/http_cgi.c:347-371 | every load extends the coded body by exactly one chunk |
| Chunked.RoundTrip | LambdaIOT/httpd/http_cgi.c:343-376 | decoding gives back the blocks and ends there, if and only if there are blocks and the first and last are not empty |
| FileTable.Files.Fopen | LambdaIOT/httpd/http_fs.c:79-143 | an open takes a free handle at position 0 and touches no other |
| FileTable.Files.Fseek | LambdaIOT/httpd/http_fs.c:186-196 | only this handle's position changes |
| FileTable.Files.Fread | LambdaIOT/httpd/http_fs.c:224-252 | the bytes read are the file's at the position, which moves behind them |
| FileTable.Files.Fclose | LambdaIOT/httpd/http_fs.c:198-210 | the handle is free again |
| SsiScanner.ScanCompose | LambdaIOT/httpd/http_web.c:345-427 | a scan may stop at any token and go on from there |
| SsiScanner.NameHasRoom | LambdaIOT/httpd/http_web.c:396-401 | a name of at most 63 bytes never overruns its buffer |
| Template.RestMeansTemplate | LambdaIOT/httpd/http_web.c:345-427 | scanning a stored template replaces exactly its references |
| WebContent.RangeSizeExact | LambdaIOT/httpd/http_web.c:225-247 | the announced length is that of the slice exactly when the range starts inside the file |
| WebContent.Reader.AppendHeaders | LambdaIOT/httpd/http_web.c:215-247 | a stored range narrows the response to that slice of the file, and its length is announced |
| WebContent.Reader.ReadContent | LambdaIOT/httpd/http_web.c:268-460 | the block lands in the buffer and nothing else changes there; the call is one step of the plain or the SSI delivery |
| WebContent.Reader.ReadPlain | LambdaIOT/httpd/http_web.c:292-313 | the next bytes of the content, as many as fit, and the end exactly when there are no more |
| WebContent.Reader.ReadSsi | LambdaIOT/httpd/http_web.c:276-437 | the call scans on exactly as the whole-page scanner does, opens at most one tag and as the last thing, stops there, at a full block or at the end, or flushes the window |
| WebContent.Reader.Flush | LambdaIOT/httpd/http_web.c:276-287 | the window goes out as it is, and that is the end |
| WebContent.Reader.ScanFile | LambdaIOT/httpd/http_web.c:314-431 | pass by pass, the block is a scan of the page; it ends at an opener, at a full block or at the end of the file |
| WebContent.Reader.ScanNext | LambdaIOT/httpd/http_web.c:321-431 | the window is filled, scanned and shifted; the cache stays below 64 bytes and a tag is only expanded at the start of a block |
| WebContent.Reader.ScanWindow | LambdaIOT/httpd/http_web.c:347-427 | a pass over the window is a scan of the page up to where it stops, which is at a full block, a tag or an unfinished token |
| WebContent.Reader.TakeToken | LambdaIOT/httpd/http_web.c:352-425 | one token more is scanned, and the block is ready exactly if it is full or a tag opens |
| WebContent.Reader.WholeToken | LambdaIOT/httpd/http_web.c:354-392 | a delimiter is recognized in the window exactly where it stands in the page |
| WebContent.Reader.ReplaceTag | LambdaIOT/httpd/http_web.c:409-410 | a value that does not fit is cut off |
| SsiCalls.EndsExactly | LambdaIOT/httpd/http_web.c:314-437 | a call ends the response exactly when nothing that is left stops it and its values fit, and then serves all that is left |
| Delivery.PlainDelivery | LambdaIOT/httpd/http_web.c:292-313 | the blocks of all calls make up the content, for all block sizes, none included |
| Delivery.SsiRefinesScan | LambdaIOT/httpd/http_web.c:314-437 | after every call, what has been served and the scanning state are those of the scanner on the bytes before the window |
| Delivery.SsiTotal | LambdaIOT/httpd/http_web.c:276-290 | the whole output is scanner output and then the unscanned window, in a bounded number of calls |
| Delivery.FullSubstitution | LambdaIOT/httpd/http_web.c:268-460 | with all tags closed and none opening in the last 64 bytes, the output is the full substitution |
| Delivery.LateTagStaysRaw | LambdaIOT/httpd/http_web.c:276-287 | a first tag is not substituted in any run with a call that starts at or before it within the last 64 bytes |
| Delivery.MissedStaysRaw | LambdaIOT/httpd/http_web.c:276-287 | once the window at the end of the file shows the opener, the page is delivered raw |
| Delivery.ShortPageStaysRaw | LambdaIOT/httpd/http_web.c:276-287 | a page of at most 64 bytes is delivered raw under all block sizes |
| Delivery.FirstSizeDecides | LambdaIOT/httpd/http_web.c:276-287 | a first block that ends at or before the tag, within the last 64 bytes, leaves it raw |
| Delivery.SingleReferenceExact | LambdaIOT/httpd/http_web.c:276-287 | in a run of any block sizes, a page with one tag comes out right exactly if no window at the end of the file still shows the opener or starts right behind it |
| Delivery.EarlyTagIsReplaced | LambdaIOT/httpd/http_web.c:345-427 | a page with one tag, and 64 bytes behind its opener, is delivered with its value |
| Delivery.LiteralPage | LambdaIOT/httpd/http_web.c:345-427 | so is a page that starts with the text of a paragraph and a tag |
| EmptyBlocks.FirstBlock | LambdaIOT/httpd/http_web.c:368-377 | the first block is empty exactly for a page that is empty, starts with a tag, or is too short to tell |
| EmptyBlocks.LastBlock | LambdaIOT/httpd/http_web.c:405-417 | the last block is empty exactly when from some token on the page is tags that stand for nothing |
| EmptyBlocks.LastEmptyMeans | LambdaIOT/httpd/http_web.c:405-417 | a stored template is such a page exactly when it ends in a reference that stands for nothing |
| Handlers.PlainIsHonest | LambdaIOT/httpd/http_web.c:292-313 | the file handler keeps to the room it is given |
| Handlers.SsiIsHonest | LambdaIOT/httpd/http_cgi.c:361-371 | a template's handler keeps to its room exactly when, before the call, the window to be flushed or what nothing stops it from serving leaves 5 bytes |
| Handlers.TaglessPageOverflows | LambdaIOT/httpd/http_cgi.c:361-371 | a page without tags served into an empty buffer fits exactly up to 239 bytes |
| Handlers.PeerGetsTheMeaning | LambdaIOT/httpd/http_web.c:268-460 | the peer decodes a template's response to its meaning, under all block sizes, exactly if the page does not start with a tag and the template does not end in a reference that stands for nothing |
| Handlers.LeadingTagBreaksChunks | LambdaIOT/httpd/http_web.c:368-377 | a page of any length that starts with a tag is never decoded to its output |
| FileResponse.Read | LambdaIOT/httpd/http_cgi.c:329-351 | the file's next block is read behind the unsent bytes, which stay as they are |
| FileResponse.Load | LambdaIOT/httpd/http_cgi.c:324-388 | one call of the reader is one more block of the response, and both agree on the progress; of an empty file there is no block |
| FileResponse.ServeNext | LambdaIOT/httpd/http_core.c:1489-1606 | one event more of a file that is served; with room it brings the end nearer |
| FileResponse.ServeFile | LambdaIOT/httpd/http_core.c:1489-1606 | whatever the stack takes at a time, a plain file that has been served to its end is on the wire as it is, behind the head; and with room each time it is served to its end |
| FileResponse.FileArrives | LambdaIOT/httpd/http_web.c:292-313 | a finished response with a plain file is the head and the file |
| FileResponse.TemplateArrives | LambdaIOT/httpd/http_web.c:268-460 | what the peer decodes of a template on the wire is its meaning, exactly under the conditions on the page |
| FileRequest.ReaderSaysSo | LambdaIOT/httpd/http_web.c:292-313 | the handler of the connection answers what a call of the reader serves |
| FileRequest.JustBegun | LambdaIOT/httpd/http_core.c:1539-1561 | a response whose head has just been written has loaded none of the file |
| FileRequest.FileEvent | LambdaIOT/httpd/http_core.c:1479-1606 | at every event what has been loaded stays a front of the file; a response that ends without a failed write is complete, and then on the wire as head and file; with everything acknowledged and room for a full buffer, every event brings the end nearer |
| FileRequest.FileServed | LambdaIOT/httpd/http_core.c:1479-1606 | so it is for any events, acknowledgements and room |
| FileRequest.Decided | LambdaIOT/httpd/http_core.c:1479-1606 | what is due of a file: nothing rests when all is acknowledged, and a block that is due is the next part of it, and not empty if there is room |
| FileRequest.FileCompletes | LambdaIOT/httpd/http_core.c:1479-1606 | as many acknowledgements as the file has bytes, and two more, bring all of it onto the wire if there is room for a full buffer each time and no write is refused |
| FileRequest.Stalls | LambdaIOT/httpd/http_cgi.c:324-342 | with 254 bytes buffered and room for more in the stack, nothing is loaded and nothing is sent |
| UrlCoding.Hex2Int | LambdaIOT/httpd/utils.c:289-300 | the value of a hexadecimal digit, or -1 |
| Spelling.HexDigitsSpelled | LambdaIOT/httpd/utils.c:289-300 | the sixteen digits, in either case, have the values 0 to 15 |
| Spelling.NoOtherHexDigits | LambdaIOT/httpd/utils.c:289-300 | and nothing else is a digit |
| Spelling.HexIsNumeral | LambdaIOT/httpd/http_cgi.c:361-371 | the size of a chunk is written as its hexadecimal numeral |
| Spelling.TwentySix | LambdaIOT/httpd/http_cgi.c:361-371 | 26 bytes are announced as 1A |
| UrlCoding.DecodedLength | LambdaIOT/httpd/utils.c:302-333 | the result is shorter by two bytes for each escape |
| UrlCoding.URLDecode | LambdaIOT/httpd/utils.c:302-333 | in place: the result's bytes are the one-pass decoding, the bytes behind it are the last two of the input over and over |
| UrlCoding.DecodeEncode | LambdaIOT/httpd/utils.c:302-333 | every encoder that escapes the percent sign is inverted |
| Spelling.EscapeDecodes | LambdaIOT/httpd/utils.c:302-333 | the escape of a byte, written in the digits of either case, is decoded to it |
| UrlCoding.DecodeIsIdentity | LambdaIOT/httpd/utils.c:309-328 | a text is left as it is exactly when it holds no valid escape |
| Base64.DecodeB64 | LambdaIOT/httpd/utils.c:216-287 | in place: the result's bytes are the decoding of the input, written only where reading is done |
| Base64.DecodeEncode | LambdaIOT/httpd/utils.c:216-287 | the standard encoding of every byte string is decoded to it, padding and line breaks anywhere |
| Spelling.AlphabetSpelled | LambdaIOT/httpd/utils.c:216-245 | the alphabet is that of section 4 of RFC 4648 |
| Base64.RejectsExactly | LambdaIOT/httpd/utils.c:246-253 | nothing is decoded exactly when some byte is neither skipped nor accepted |
| Base64.StrictExactly | LambdaIOT/httpd/utils.c:216-287 | the standard's decoder, defined on its own, takes exactly the encodings |
| Base64.AgreesWithStandard | LambdaIOT/httpd/utils.c:216-287 | the decoder agrees with the standard's exactly on the texts that one takes and on those it rejects itself |
| Sessions.SessionTable.SessionCreate | LambdaIOT/httpd/http_session.c:31-65 | the first free slot gets the session, no other slot changes, and it fails exactly when none is free |
| Sessions.SessionTable.SessionKill | LambdaIOT/httpd/http_session.c:67-79 | a slot in use is freed, and nothing else changes |
| Sessions.SessionTable.GetSession | LambdaIOT/httpd/http_session.c:114-138 | the first session whose token occurs in the header |
| Sessions.AuthorizedExactly | LambdaIOT/httpd/http_core.c:1254-1255 | let through exactly with a session matching token and address before which no presented one has another address |
| Sessions.KilledSessionGone | LambdaIOT/httpd/http_session.c:67-79 | who gets in after a session was killed does so by another session |
| Sessions.CreatedSessionServes | LambdaIOT/httpd/http_session.c:31-65 | a new session lets its address in and no other, unless an earlier session is presented, which then decides |
| Sessions.SessionTypes | LambdaIOT/httpd/http_session.c:81-112 | zero exactly for extensions that start with an exempt one |
| Access.ExemptExactly | LambdaIOT/httpd/http_session.c:81-112 | the exempt extensions are the eleven of styles, pictures and fonts, letter case apart |
| Access.PagesAreNotExempt | LambdaIOT/httpd/http_session.c:81-112 | pages, services and paths without an extension are not |
| Routing.Table.Append | LambdaIOT/httpd/http_cgi.c:42-83 | the mapping goes to the end; a star cuts the path and makes it a prefix |
| Routing.Table.SetupMapping | LambdaIOT/httpd/http_cgi.c:24-40 | the table that is installed |
| Routing.Table.SetCgiHandler | LambdaIOT/httpd/http_cgi.c:103-142 | the first mapping that matches |
| Routing.ProtectedPaths | LambdaIOT/httpd/http_cgi.c:33-39 | the table protects everything below /app/ and the two services below /api/, and nothing else |
| Access.InstalledAllows | LambdaIOT/httpd/http_cgi.c:24-40 | for every path, which methods it takes, whether it needs a session, where its content comes from, and whether it wants lines and chunks |
| RequestLine.TakePath | LambdaIOT/httpd/http_core.c:1053-1077 | the path is what stands before the protocol version, without leading spaces, as far as it fits |
| RequestLine.ParseQueryString | LambdaIOT/httpd/http_core.c:835-889 | in place: the extension of the path before the first question mark; or, if a run does not fit, an empty path and the run up to where it stopped |
| RequestLine.FindRoute | LambdaIOT/httpd/http_core.c:1053-1095 | copying, decoding in place, splitting and searching give the route of the target |
| RequestLine.SpillsExactly | LambdaIOT/httpd/http_core.c:876-882 | a path runs over the extension exactly if some beginning of it ends in a dot and 8 or more bytes |
| RequestLine.RunSpills | LambdaIOT/httpd/http_core.c:876-882 | a run of at most 7 bytes behind the only dot fits, and one of 8 does not |
| RequestLine.RunOfEight | LambdaIOT/httpd/http_core.c:876-882 | one of 8 does not, whatever follows it |
| RequestLine.ExtensionIs | LambdaIOT/httpd/http_core.c:845-883 | the extension is the part behind the last dot of the last segment |
| RequestLine.NoExtension | LambdaIOT/httpd/http_core.c:866-874 | a last segment without a dot has no extension |
| RequestLine.ParametersDoNotRoute | LambdaIOT/httpd/http_core.c:884-886 | parameters decide neither handler nor extension |
| RequestLine.EncodedPath | LambdaIOT/httpd/http_core.c:1053-1086 | a path that was percent-encoded in any way is the path that was meant |
| FormBody.FormReceiver.OnFormReceived | LambdaIOT/httpd/http_web.c:69-115 | never more than is left of the body or fits the buffer is consumed, and nothing stays unparsed when the body is complete, if the parser keeps to the bytes buffered |
| Connections.Server.GetHttpContext | LambdaIOT/httpd/http_core.c:168-207 | there is a context exactly unless the address has its share or none is free |
| Connections.Server.Accept | LambdaIOT/httpd/http_core.c:467-538 | accepted exactly when there is a context; the bijection and the cap are kept, no other connection is touched |
| Connections.Server.Close | LambdaIOT/httpd/http_core.c:316-357 | the context is free, and a connection that could not be closed refers to none |
| Connections.Server.Error | LambdaIOT/httpd/http_core.c:775-793 | the connection is gone and exactly its context is free |
| Connections.Server.Retry | LambdaIOT/httpd/http_core.c:703-714 | a detached connection is gone after its next event |
| Connections.Server.AddressShare | LambdaIOT/httpd/http_core.c:172-187 | never more connections from one address are served than the cap says |

## Left out

- Requests whose body is chunked, and the lines `Transfer-Encoding`, `Expect` and `If-Modified-Since`; such lines are read and ignored here.
- A `Range` line that ends right behind `bytes=`, where the code reads on behind the line, and the copying of a negative number of bytes for a range without an open file; the range kept from a head is a parameter where files are served.
- A connection takes the routing of targets as a function; `RequestLine.FindRoute` computes the one for a table.
- `atol` overflow, and the wrap-around of the 16-bit length of a packet buffer chain.
- The text of a response head, dates and status lines: any non-empty byte string that fits the buffer.
- The code of handlers, apart from the file handler and the one for posted forms: any result, any answer within what `Honest` allows, and any number of body bytes up to those offered. What a handler does with a line it gets is not modelled.
- The bytes of a posted form that wait in the send buffer are part of `FormBody` and not of a connection.
- The carriage return of a line is overwritten with a NUL in the buffer; here the line is handed on as a value.
- WebContent.Reader.ReadContent: needs, for templates, room for one byte, for 50 bytes where a tag is expanded, and for the window where it is flushed, and names of at most 63 bytes, because the code writes past its buffers otherwise. For plain files it does not say what happens with a negative room (255 bytes buffered), where the code copies a negative number of bytes.
- WebContent.Reader.ReadSsi: needs 50 bytes of room inside a tag, for the same reason.
- WebContent.Reader.ScanNext: needs 50 bytes of room inside a tag, for the same reason.
- WebContent.Reader.ScanFile: needs 50 bytes of room inside a tag, for the same reason.
- WebContent.Reader.TakeToken: needs 50 bytes of room inside a tag, for the same reason.
- WebContent.Reader.ScanWindow: needs 50 bytes of room inside a tag, for the same reason.
- WebContent.Reader.AppendHeaders: does not say what happens to a stored range that starts behind the end of the file, whose length is negative.
- FileTable.Files.Fread: does not read from a handle behind the end of its file, where the code copies a negative number of bytes.
- Response.ResponseContext.AppendChunk: does not append a last block without room for its tail, because the code writes past the buffer there; `Handlers.SsiIsHonest` says exactly when a template has such a block.
- FileResponse.Load: needs 64 bytes of room for a template, so that a flushed window fits; `ServeFile` and `FileRequest` are for plain files.
- FormBody.FormReceiver.OnFormReceived: assumes that the parser keeps to the bytes buffered. In the code its searches run on into what an earlier, longer content has left behind them (http_web.c:35-56).
- File-handle leaks. Progress of a response is stated for a file; of any other handler only that what it answers is loaded and sent.
- FileRequest.FileCompletes: needs fewer than 254 bytes in the buffer when it begins; with 254 see `FileRequest.Stalls`, and with 255 the code passes a room of minus one byte on as a length, where the model reads nothing.
- Clocks and timeouts: a poll says whether the time is up. Mutexes: events are atomic, as on the board.
- `HttpdStop`, the listening sockets, TLS, SSDP, uploads, the local file system, fake files, content in memory, gzip marks and logging.
- The redirect of everything to https, which is compiled in only together with TLS.
- Session time-outs.
