/** A request for a plain file, event by event: the connection, with the reader of the file as its handler. */
module FileRequest {
  import opened Bytes
  import opened HttpCore
  import opened InputQueue
  import opened Limits
  import opened Response
  import SsiScanner
  import W = WebContent

  /** What the reader of a plain file answers when the response has got to `stage` and `index`. */
  function FileSays(content: seq<Byte>, stage: nat, index: nat): Handler {
    (maxSize, chunked, first) =>
      if chunked then Answer(-1, [], 0, 0)
      else
        var v := W.View(stage, index, 0, SsiScanner.Literal);
        var r := W.PlainAnswer(content, v, if maxSize > 0 then maxSize else 0);
        Answer(r.0, r.1, r.2.stage, r.2.index)
  }

  /** It is what one of its calls serves. */
  lemma ReaderSaysSo(content: seq<Byte>, v: W.View, maxSize: nat, n: int, block: seq<Byte>, v': W.View, first: bool)
    requires W.PlainStep(content, v, maxSize, n, block, v')
    ensures Answer(n, block, v'.stage, v'.index) == FileSays(content, v.stage, v.index)(maxSize, false, first)
  {
    var r := W.PlainAnswer(content, W.View(v.stage, v.index, 0, SsiScanner.Literal), maxSize);
    assert n == r.0 && block == r.1 && v'.stage == r.2.stage && v'.index == r.2.index;
  }

  lemma FileObeys(content: seq<Byte>, stage: nat, index: nat)
    requires stage < STAGE_END || index >= |content|
    ensures Obeys(FileSays(content, stage, index))
  {
    forall maxSize: int, chunked: bool, first: bool
      ensures Honest(FileSays(content, stage, index)(maxSize, chunked, first), maxSize, chunked, first)
    {
      var v := W.View(stage, index, 0, SsiScanner.Literal);
      var r := W.PlainAnswer(content, v, if maxSize > 0 then maxSize else 0);
      assert !chunked ==>
               FileSays(content, stage, index)(maxSize, chunked, first) == Answer(r.0, r.1, r.2.stage, r.2.index);
    }
  }

  /** The response is under way, and has loaded the file up to where its reader is. */
  ghost predicate OnFile(c: RequestContext, content: seq<Byte>)
    reads c, c.inq, c.inq.buffer, c.inq.pcb`credit, c.rsp, c.rsp.sendBuffer, c.rsp.pcb`wire, c.rsp.pcb`acked
  {
    && c.Live() && c.contentReceived == c.taken && c.rsp.sending && c.result > 0 && c.HasContent() && !c.rsp.chunked
    && Loaded(content, c.rsp.blocks, c.rsp.stage, c.rsp.operIndex)
  }

  ghost predicate Loaded(content: seq<Byte>, blocks: seq<seq<Byte>>, stage: nat, index: nat) {
    && index <= |content| && Join(blocks) == content[..index]
    && if stage == STAGE_END then index == |content| else content != [] ==> index < |content|
  }

  lemma LoadedMore(content: seq<Byte>, blocks: seq<seq<Byte>>, stage: nat, index: nat, maxSize: int, first: bool)
    requires Loaded(content, blocks, stage, index) && stage + 1 < STAGE_END
    ensures var a := FileSays(content, stage, index)(maxSize, false, first);
            if a.size < 0 then content == []
            else
              && Loaded(content, blocks + [a.block], a.stage, a.index) && !Waits(a)
              && (a.stage == STAGE_END || a.stage == stage + 1)
              && a.index == index + |a.block| && (content != [] && maxSize > 0 <==> a.block != [])
  {
    var a := FileSays(content, stage, index)(maxSize, false, first);
    var v := W.View(stage, index, 0, SsiScanner.Literal);
    var r := W.PlainAnswer(content, v, if maxSize > 0 then maxSize else 0);
    assert a == Answer(r.0, r.1, r.2.stage, r.2.index);
    assert W.PlainStep(content, v, if maxSize > 0 then maxSize else 0, r.0, r.1, r.2);
    if a.size >= 0 {
      JoinAppend(blocks, [a.block]);
      assert [a.block][1..] == [] && a.block + [] == a.block;
      assert content[..a.index] == content[..index] + content[index..a.index];
    }
  }

  /** It is so as soon as the head has been put into the buffer. */
  lemma JustBegun(c: RequestContext, content: seq<Byte>)
    requires c.Live() && c.contentReceived == c.taken && c.rsp.sending && c.state == SENDING_HEADER
    requires c.result > 0 && c.HasContent() && !c.rsp.chunked
    ensures OnFile(c, content) && c.rsp.stage == 0
  {
    hide RequestContext.Known, RequestContext.Framed, RequestContext.Gate, Queue.Valid;
    c.rsp.NothingLoaded();
  }

  /** On the wire, the response is its head and the file. */
  ghost predicate Arrived(c: RequestContext, head: seq<Byte>, content: seq<Byte>)
    reads c.rsp`base, c.rsp.pcb`wire
  {
    c.rsp.base <= |c.rsp.pcb.wire| && c.rsp.pcb.wire[c.rsp.base..] == head + content
  }

  /** How many more events it takes at most, if all goes well: one for each byte, the buffer, and the end. */
  ghost function Ahead(c: RequestContext, content: seq<Byte>): int
    reads c.rsp`bytesLeft, c.rsp`stage, c.rsp`operIndex
  {
    |content| - c.rsp.operIndex + if c.rsp.stage == STAGE_END && c.rsp.bytesLeft > 0 then 2 else 1
  }

  /** All that has been sent is acknowledged, and there is room for as much as the buffer can hold. */
  ghost predicate Favourable(c: RequestContext, caller: Caller)
    reads c.rsp`totalSent, c.rsp`total2Send, c.rsp.pcb`room
  {
    caller == Sent && c.rsp.totalSent >= c.rsp.total2Send && c.rsp.pcb.room >= MAX_SEND_BUF_SIZE
  }

  /** Something can be read behind what is buffered. */
  ghost predicate Roomy(c: RequestContext)
    reads c.rsp`bytesLeft
  {
    c.rsp.bytesLeft < 254
  }

  /** What is due next of a file. */
  lemma Decided(c: RequestContext, content: seq<Byte>, caller: Caller)
    requires OnFile(c, content) && (c.rsp.stage == STAGE_END || c.rsp.stage + 1 < STAGE_END)
    ensures match c.Due(caller, FileSays(content, c.rsp.stage, c.rsp.operIndex), 0)
            case Opens => false
            case Flushes =>
              0 < c.rsp.bytesLeft <= 256 && (Favourable(c, caller) && Roomy(c) ==> c.rsp.stage == STAGE_END)
            case Rests => !Favourable(c, caller)
            case Ends => c.rsp.stage == STAGE_END || content == []
            case Loads(a) =>
              && c.rsp.stage != STAGE_END && Loaded(content, c.rsp.blocks + [a.block], a.stage, a.index) && !Waits(a)
              && a.size >= 0 && (a.stage == STAGE_END || a.stage == c.rsp.stage + 1)
              && a.index == c.rsp.operIndex + |a.block| && (content != [] && Roomy(c) ==> a.block != [])
  {
    hide RequestContext.Known, RequestContext.Framed, RequestContext.Gate, RequestContext.Chunking, Queue.Valid;
    hide FileSays, RequestContext.Answered, ResponseContext.Coded;
    var read := FileSays(content, c.rsp.stage, c.rsp.operIndex);
    c.NothingToSay(read);
    c.InResponse();
    if c.rsp.stage != STAGE_END {
      LoadedMore(content, c.rsp.blocks, c.rsp.stage, c.rsp.operIndex, c.rsp.Room(), c.rsp.First());
    }
    hide RequestContext.Says, RequestContext.HasContent, Loaded;
  }

  /**
    One event: what has been loaded stays a front of the file, and a response that ends, if no write
    failed and the file is not empty, is complete: its head and the file, on the wire as they are.
    A favourable event brings the end nearer.
   */
  method FileEvent(c: RequestContext, content: seq<Byte>, caller: Caller) returns (ghost done: bool, ghost stack: Stack)
    requires OnFile(c, content) && (c.rsp.stage == STAGE_END || c.rsp.stage + 1 < STAGE_END)
    modifies c`state, c`result, c`calls, c.rsp`bytesLeft, c.rsp`head, c.rsp`stage, c.rsp`operIndex, c.rsp`sending
    modifies c.rsp`total2Send, c.rsp`body, c.rsp`blocks, c.rsp`finished, c.rsp.sendBuffer
    modifies c.rsp.pcb`wire, c.rsp.pcb`refused, c.rsp.pcb`room
    ensures c.state != REQUEST_END ==> OnFile(c, content) && c.rsp.head == old(c.rsp.head)
    ensures c.state != REQUEST_END ==>
              c.rsp.stage == STAGE_END || (old(c.rsp.stage) != STAGE_END && c.rsp.stage <= old(c.rsp.stage) + 1)
    ensures c.state == REQUEST_END && !stack.failed && content != [] ==> done
    ensures stack.failed ==> c.state == REQUEST_END
    ensures stack.failed <==> c.rsp.pcb.refused != old(c.rsp.pcb.refused)
    ensures done ==> c.state == REQUEST_END && Arrived(c, old(c.rsp.head), content)
    ensures old(Favourable(c, caller) && Roomy(c)) && content != [] && !stack.failed ==>
              done || (c.rsp.bytesLeft == 0 && Ahead(c, content) < old(Ahead(c, content)))
  {
    hide RequestContext.Known, RequestContext.Framed, RequestContext.Gate, RequestContext.Chunking, Queue.Valid;
    hide FileSays, RequestContext.Answered, ResponseContext.Valid, RequestContext.Due, RequestContext.Loses;
    var read := FileSays(content, c.rsp.stage, c.rsp.operIndex);
    FileObeys(content, c.rsp.stage, c.rsp.operIndex);
    Decided(c, content, caller);
    c.InResponse();
    if c.rsp.stage == STAGE_END {
      AllLoaded(c, content);
    }
    hide Obeys, RequestContext.Says, RequestContext.HasContent, Loaded, RequestContext.Answers;
    done, stack := c.HttpResponseProc(caller, read);
  }

  lemma AllLoaded(c: RequestContext, content: seq<Byte>)
    requires OnFile(c, content) && c.rsp.stage == STAGE_END
    ensures c.rsp.body == content
  {
    hide RequestContext.Known, RequestContext.Framed, RequestContext.Gate, Queue.Valid;
    assert content[..|content|] == content;
  }

  /** An event of the connection, how many bytes it acknowledges, and how many the stack then has room for. */
  datatype Event = Event(caller: Caller, acked: nat, room: nat)

  lemma AtStart(c: RequestContext, content: seq<Byte>)
    requires OnFile(c, content)
    ensures c.state != REQUEST_END
  {
    hide RequestContext.Framed, RequestContext.Gate, Queue.Valid, Loaded;
  }

  /** The peer can acknowledge no more than has been sent. */
  method Acknowledge(c: RequestContext, content: seq<Byte>, acked: nat, inFlight: nat)
    requires OnFile(c, content) && c.rsp.base == c.rsp.ackBase + inFlight
    modifies c.rsp`totalSent, c.rsp.pcb`acked
    ensures OnFile(c, content)
    ensures c.rsp.totalSent == old(c.rsp.totalSent)
                               + if old(c.rsp.totalSent) + acked <= c.rsp.total2Send + inFlight then acked else 0
  {
    Ready(c, content);
    hide RequestContext.Ready, Loaded;
    if c.rsp.totalSent + acked <= c.rsp.total2Send + inFlight {
      c.Acknowledged(acked, FileSays(content, 0, 0));
      c.AtRest();
    }
  }

  lemma Ready(c: RequestContext, content: seq<Byte>)
    requires OnFile(c, content)
    ensures c.Ready() && c.rsp.totalSent == c.rsp.pcb.acked - c.rsp.ackBase
    ensures c.rsp.total2Send == |c.rsp.pcb.wire| - c.rsp.base
  {
    hide RequestContext.Known, RequestContext.Framed, RequestContext.Gate, Queue.Valid;
  }

  /** The peer has acknowledged some bytes, or nothing has happened for a while; and the response goes on. */
  method NextEvent(c: RequestContext, content: seq<Byte>, e: Event, inFlight: nat)
    returns (ghost done: bool, ghost stack: Stack)
    requires OnFile(c, content) && (c.rsp.stage == STAGE_END || c.rsp.stage + 1 < STAGE_END)
    requires c.rsp.base == c.rsp.ackBase + inFlight
    modifies c`state, c`result, c`calls, c.rsp`bytesLeft, c.rsp`head, c.rsp`stage, c.rsp`operIndex, c.rsp`sending
    modifies c.rsp`total2Send, c.rsp`totalSent, c.rsp`body, c.rsp`blocks, c.rsp`finished, c.rsp.sendBuffer
    modifies c.rsp.pcb`wire, c.rsp.pcb`refused, c.rsp.pcb`room, c.rsp.pcb`acked
    ensures if c.state != REQUEST_END then
              && OnFile(c, content) && c.rsp.head == old(c.rsp.head) && !done && !stack.failed
              && (c.rsp.stage == STAGE_END || (old(c.rsp.stage) != STAGE_END && c.rsp.stage <= old(c.rsp.stage) + 1))
            else content == [] || stack.failed || done
    ensures stack.failed <==> c.rsp.pcb.refused != old(c.rsp.pcb.refused)
    ensures done ==> Arrived(c, old(c.rsp.head), content)
  {
    hide OnFile, Arrived;
    Acknowledge(c, content, e.acked, inFlight);
    c.rsp.pcb.Offer(e.room);
    done, stack := FileEvent(c, content, e.caller);
  }

  /**
    The whole response: for any events in any order, for at most as many as the counter of blocks can
    tell apart, and whatever room the stack has at each of them.  `inFlight` bytes of earlier
    responses were not acknowledged when it began.
   */
  method FileServed(c: RequestContext, content: seq<Byte>, events: seq<Event>, inFlight: nat)
    returns (ghost done: bool, ghost failed: bool)
    requires OnFile(c, content) && (c.rsp.stage == STAGE_END || c.rsp.stage + |events| < STAGE_END)
    requires c.rsp.base == c.rsp.ackBase + inFlight
    modifies c`state, c`result, c`calls, c.rsp`bytesLeft, c.rsp`head, c.rsp`stage, c.rsp`operIndex, c.rsp`sending
    modifies c.rsp`total2Send, c.rsp`totalSent, c.rsp`body, c.rsp`blocks, c.rsp`finished, c.rsp.sendBuffer
    modifies c.rsp.pcb`wire, c.rsp.pcb`refused, c.rsp.pcb`room, c.rsp.pcb`acked
    ensures if c.state == REQUEST_END then content == [] || failed || done
            else OnFile(c, content) && c.rsp.head == old(c.rsp.head) && !done
    ensures failed <==> c.rsp.pcb.refused != old(c.rsp.pcb.refused)
    ensures done ==> Arrived(c, old(c.rsp.head), content)
    decreases |events|
  {
    hide OnFile, Arrived;
    done, failed := false, false;
    if events == [] {
      AtStart(c, content);
    } else {
      ghost var stack;
      done, stack := NextEvent(c, content, events[0], inFlight);
      failed := stack.failed;
      if c.state != REQUEST_END {
        done, failed := FileServed(c, content, events[1..], inFlight);
      }
    }
  }

  /** The peer acknowledges all that has been sent, and the stack has room for a full buffer. */
  method FavourableEvent(c: RequestContext, content: seq<Byte>, room: nat, inFlight: nat) returns (ghost done: bool)
    requires OnFile(c, content) && (c.rsp.stage == STAGE_END || c.rsp.stage + 1 < STAGE_END)
    requires c.rsp.base == c.rsp.ackBase + inFlight && content != [] && Roomy(c) && room >= MAX_SEND_BUF_SIZE
    modifies c`state, c`result, c`calls, c.rsp`bytesLeft, c.rsp`head, c.rsp`stage, c.rsp`operIndex, c.rsp`sending
    modifies c.rsp`total2Send, c.rsp`totalSent, c.rsp`body, c.rsp`blocks, c.rsp`finished, c.rsp.sendBuffer
    modifies c.rsp.pcb`wire, c.rsp.pcb`refused, c.rsp.pcb`room, c.rsp.pcb`acked
    ensures done ==> c.state == REQUEST_END && Arrived(c, old(c.rsp.head), content)
    ensures c.state != REQUEST_END ==>
              && OnFile(c, content) && c.rsp.head == old(c.rsp.head) && c.rsp.pcb.refused == old(c.rsp.pcb.refused)
              && (c.rsp.stage == STAGE_END || (old(c.rsp.stage) != STAGE_END && c.rsp.stage <= old(c.rsp.stage) + 1))
              && Ahead(c, content) < old(Ahead(c, content)) && Roomy(c)
    ensures c.state == REQUEST_END && c.rsp.pcb.refused == old(c.rsp.pcb.refused) ==> done
  {
    SomeAhead(c, content);
    hide OnFile, Arrived, Ahead;
    Acknowledge(c, content, c.rsp.total2Send + inFlight - c.rsp.totalSent, inFlight);
    c.rsp.pcb.Offer(room);
    ghost var stack;
    done, stack := FileEvent(c, content, Sent);
    if c.state != REQUEST_END {
      SomeAhead(c, content);
    }
  }

  lemma StillAmple(rooms: seq<nat>)
    requires Ample(rooms) && rooms != []
    ensures rooms[0] >= MAX_SEND_BUF_SIZE && Ample(rooms[1..]) && |rooms[1..]| == |rooms| - 1
  {
  }

  /**
    And it does arrive: if the peer acknowledges what has been sent, again and again, the stack has room
    for a full buffer each time and refuses no write, the response of a file that is not empty
    is complete after as many events as the file has bytes, and two more.
   */
  method FileCompletes(c: RequestContext, content: seq<Byte>, rooms: seq<nat>, inFlight: nat) returns (ghost done: bool)
    requires OnFile(c, content) && (c.rsp.stage == STAGE_END || c.rsp.stage + |rooms| < STAGE_END)
    requires c.rsp.base == c.rsp.ackBase + inFlight && content != [] && Roomy(c)
    requires Ample(rooms) && |rooms| >= Ahead(c, content)
    modifies c`state, c`result, c`calls, c.rsp`bytesLeft, c.rsp`head, c.rsp`stage, c.rsp`operIndex, c.rsp`sending
    modifies c.rsp`total2Send, c.rsp`totalSent, c.rsp`body, c.rsp`blocks, c.rsp`finished, c.rsp.sendBuffer
    modifies c.rsp.pcb`wire, c.rsp.pcb`refused, c.rsp.pcb`room, c.rsp.pcb`acked
    ensures c.rsp.pcb.refused == old(c.rsp.pcb.refused) ==> done
    ensures done ==> Arrived(c, old(c.rsp.head), content)
    decreases |rooms|
  {
    SomeAhead(c, content);
    StillAmple(rooms);
    hide OnFile, Arrived, Ahead, Roomy, Ample;
    done := FavourableEvent(c, content, rooms[0], inFlight);
    if c.state != REQUEST_END {
      done := FileCompletes(c, content, rooms[1..], inFlight);
    }
  }

  lemma SomeAhead(c: RequestContext, content: seq<Byte>)
    requires OnFile(c, content)
    ensures Ahead(c, content) >= 1 && !c.rsp.chunked
    ensures c.rsp.totalSent <= c.rsp.total2Send + c.rsp.base - c.rsp.ackBase
  {
    Ready(c, content);
    hide RequestContext.Known, RequestContext.Framed, RequestContext.Gate, Queue.Valid;
  }

  /**
    But room for the last two bytes of the buffer is kept back: 254 bytes of a head that are still
    buffered, when the stack has more room than that, stay there, and nothing is sent.
   */
  method Stalls(c: RequestContext, content: seq<Byte>, caller: Caller)
    requires OnFile(c, content) && c.rsp.stage + 1 < STAGE_END && content != [] && c.state == SENDING_BODY
    requires c.rsp.bytesLeft == 254 < c.rsp.pcb.room
    modifies c`state, c`result, c`calls, c.rsp`bytesLeft, c.rsp`head, c.rsp`stage, c.rsp`operIndex, c.rsp`sending
    modifies c.rsp`total2Send, c.rsp`body, c.rsp`blocks, c.rsp`finished, c.rsp.sendBuffer
    modifies c.rsp.pcb`wire, c.rsp.pcb`refused, c.rsp.pcb`room
    ensures OnFile(c, content) && c.state == SENDING_BODY && |c.rsp.pcb.wire| == old(|c.rsp.pcb.wire|)
    ensures c.rsp.bytesLeft == old(c.rsp.bytesLeft) && c.rsp.operIndex == old(c.rsp.operIndex)
  {
    hide RequestContext.Known, RequestContext.Framed, RequestContext.Gate, RequestContext.Chunking, Queue.Valid;
    hide FileSays, RequestContext.Answered;
    c.InResponse();
    var read := FileSays(content, c.rsp.stage, c.rsp.operIndex);
    FileObeys(content, c.rsp.stage, c.rsp.operIndex);
    c.NothingToSay(read);
    LoadedMore(content, c.rsp.blocks, c.rsp.stage, c.rsp.operIndex, c.rsp.Room(), c.rsp.First());
    OnWire(c, content);
    hide Obeys, RequestContext.Says, RequestContext.HasContent, Loaded, ResponseContext.Valid;
    ghost var done, stack;
    done, stack := c.HttpResponseProc(caller, read);
    OnWire(c, content);
  }

  lemma OnWire(c: RequestContext, content: seq<Byte>)
    requires OnFile(c, content)
    ensures |c.rsp.pcb.wire| == c.rsp.base + |c.rsp.head| + c.rsp.operIndex - c.rsp.bytesLeft
  {
    hide RequestContext.Known, RequestContext.Framed, RequestContext.Gate, Queue.Valid;
    if c.rsp.stage == STAGE_END {
      AllLoaded(c, content);
    }
    assert |c.rsp.pcb.wire[c.rsp.base..] + c.rsp.sendBuffer[..c.rsp.bytesLeft]| == |c.rsp.head + c.rsp.body|;
  }
}
