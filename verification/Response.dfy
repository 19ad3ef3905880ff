/** The send side of a request: one response head, then body blocks, through a 256-byte buffer. */
module Response {
  import opened Bytes
  import opened Lwip
  import opened Chunked
  import opened Limits

  const CHUNK_ROOM := 10

  datatype Caller = Recv | Poll | Sent

  /** What a handler's `ReadContent` answers: a block (or -1), and the progress it has reached. */
  datatype Answer = Answer(size: int, block: seq<Byte>, stage: nat, index: nat)

  /** Nothing served, and no progress: the handler waits for more room. */
  predicate Waits(a: Answer) {
    a.size == 0 && a.stage == 0 && a.index == 0
  }

  /**
    What is expected of a handler: no more than `maxSize` bytes, with the last block of a chunked
    response 5 bytes of room to spare for the tail, and progress past the initial state with every
    answer, unless it is asked for the `first` time and waits.
   */
  predicate Honest(a: Answer, maxSize: int, chunked: bool, first: bool) {
    && ((a.size == -1 && a.block == []) || a.size == |a.block|)
    && (a.block != [] ==> |a.block| + (if chunked && a.stage == STAGE_END then 5 else 0) <= maxSize)
    && a.stage <= STAGE_END && (a.size >= 0 ==> a.stage > 0 || a.index > 0 || (first && a.block == []))
  }

  /**
    What a handler answers during one event, for the room it is given, whether chunks are made of it,
    and whether it has made no progress yet.
   */
  type Handler = (int, bool, bool) -> Answer

  ghost predicate Obeys(read: Handler) {
    forall maxSize: int, chunked: bool, first: bool ::
      Honest(read(maxSize, chunked, first), maxSize, chunked, first)
  }

  /** Room for a full buffer, each time. */
  predicate Ample(rooms: seq<nat>) {
    forall k | 0 <= k < |rooms| :: rooms[k] >= 256
  }

  class ResponseContext {
    const pcb: Pcb
    const sendBuffer: array<Byte>
    var sending: bool
    var total2Send: nat
    var totalSent: nat
    var bytesLeft: nat
    var stage: nat
    var operIndex: nat
    var chunked: bool

    // what has been produced for the current request
    ghost var head: seq<Byte>
    ghost var body: seq<Byte>
    ghost var blocks: seq<seq<Byte>>
    ghost var finished: bool
    // where on the wire, and in the acknowledgements, it starts
    ghost var base: nat
    ghost var ackBase: nat

    constructor (pcb: Pcb)
      requires pcb.wire == [] && pcb.acked == 0
      ensures this.pcb == pcb && fresh(sendBuffer) && Quiet()
    {
      this.pcb := pcb;
      sendBuffer := new Byte[MAX_SEND_BUF_SIZE](_ => NUL);
      sending, total2Send, totalSent, bytesLeft, stage, operIndex, chunked := false, 0, 0, 0, 0, 0, false;
      head, body, blocks, finished, base, ackBase := [], [], [], false, 0, 0;
    }

    /** Wire order: what is on the wire and what is buffered make up the head and the loads, in order. */
    ghost predicate WireOrder()
      reads this`bytesLeft, this`base, this`head, this`body, this`total2Send, sendBuffer, pcb`wire
    {
      && sendBuffer.Length == MAX_SEND_BUF_SIZE && bytesLeft <= MAX_SEND_BUF_SIZE && base <= |pcb.wire|
      && pcb.wire[base..] + sendBuffer[..bytesLeft] == head + body
      && total2Send == |pcb.wire| - base
    }

    /** The loads are the coded blocks, and only a response whose head is out has any. */
    ghost predicate Coded()
      reads this`sending, this`blocks, this`body, this`finished, this`stage, this`operIndex, this`chunked
    {
      && (!sending ==> blocks == [] && body == [])
      && (blocks == [] ==> !finished && (sending ==> stage == 0 && operIndex == 0))
      && (blocks != [] ==> stage > 0 || operIndex > 0)
      && (if !chunked then body == Join(blocks)
          else if finished then body == Body(true, blocks)
          else body == Unfinished(true, blocks))
    }

    ghost predicate Valid()
      reads this, sendBuffer, pcb`wire, pcb`acked
    {
      && WireOrder() && Coded() && stage <= STAGE_END && bytesLeft <= MAX_SEND_BUF_SIZE == sendBuffer.Length
      && ackBase <= pcb.acked <= |pcb.wire| && totalSent == pcb.acked - ackBase
    }

    /** Nothing has been produced for the current request yet. */
    ghost predicate Quiet()
      reads this, sendBuffer, pcb`wire, pcb`acked
    {
      Valid() && !sending && bytesLeft == 0 && head == [] && blocks == [] && !finished && stage == 0
    }

    lemma Silent()
      requires Quiet()
      ensures !sending && blocks == []
    {
    }

    /** The request is complete: the counters start over, and what was buffered is dropped. */
    method Start()
      requires sendBuffer.Length == MAX_SEND_BUF_SIZE && pcb.acked <= |pcb.wire|
      modifies this, sendBuffer
      ensures Quiet()
      ensures base == |pcb.wire| && ackBase == pcb.acked && total2Send == 0 && totalSent == 0 && bytesLeft == 0
      ensures chunked == old(chunked)
    {
      hide Unfinished, Body, Join;
      NothingLoaded();
      sendBuffer[0] := NUL;
      sending, total2Send, totalSent, operIndex, stage, bytesLeft := false, 0, 0, 0, 0, 0;
      head, body, blocks, finished, base, ackBase := [], [], [], false, |pcb.wire|, pcb.acked;
      assert Coded();
      assert WireOrder() by {
        assert pcb.wire[base..] == [] && sendBuffer[..bytesLeft] == [];
      }
    }

    /** Whether the body will be chunk-coded is settled before any of it is loaded. */
    method SetChunked(on: bool)
      requires Quiet()
      modifies this`chunked
      ensures Quiet() && chunked == on
    {
      hide WireOrder, Join, Unfinished, Body;
      NothingLoaded();
      chunked := on;
    }

    /** The stack reports `n` more bytes as acknowledged. */
    method Acknowledged(n: nat)
      requires Valid() && pcb.acked + n <= |pcb.wire|
      modifies this`totalSent, pcb`acked
      ensures Valid() && pcb.acked == old(pcb.acked) + n && totalSent == old(totalSent) + n
    {
      hide WireOrder, Coded;
      totalSent := totalSent + n;
      pcb.Acknowledge(n);
    }

    /** Puts the head into the empty buffer. */
    method LoadHead(h: seq<Byte>)
      requires Valid() && !sending && bytesLeft == 0 && head == [] && h != [] && |h| < MAX_SEND_BUF_SIZE
      modifies this`bytesLeft, this`head, this`stage, this`operIndex, sendBuffer
      ensures Valid() && head == h && bytesLeft == |h| && stage == 0 && operIndex == 0
    {
      stage, operIndex := 0, 0;
      Store(sendBuffer, 0, h);
      bytesLeft := |h|;
      head := h;
      assert pcb.wire[base..] == [];
      assert sendBuffer[..bytesLeft] == h;
    }

    /** Of `left` bytes that were buffered, those for which there is room have gone, all of them if there was enough. */
    ghost predicate Flushed(left: nat, room: nat)
      reads this`bytesLeft, pcb`room
    {
      bytesLeft <= left && (bytesLeft > 0 ==> pcb.room == 0) && (left <= room ==> bytesLeft == 0)
    }

    /** Hands as much of the buffer to the stack as it takes; the rest moves to the front. */
    method SendBuffered() returns (err: int)
      requires Valid()
      modifies this`total2Send, this`bytesLeft, sendBuffer, pcb`wire, pcb`refused, pcb`room
      ensures Valid() && bytesLeft <= old(bytesLeft) && (err != 0 <==> pcb.refused != old(pcb.refused))
      ensures err == 0 ==> Flushed(old(bytesLeft), old(pcb.room))
    {
      hide WireOrder, Coded;
      while bytesLeft > 0
        invariant Valid() && bytesLeft <= old(bytesLeft) && pcb.refused == old(pcb.refused)
        invariant bytesLeft == 0 || (bytesLeft == old(bytesLeft) && pcb.room == old(pcb.room))
                  || old(pcb.room < bytesLeft)
      {
        var size2Send := bytesLeft;
        var maxbuf := pcb.Sndbuf();
        if maxbuf <= 0 {
          break;
        }
        if size2Send > maxbuf {
          size2Send := maxbuf;
        }
        err := WriteFront(size2Send);
        if err != 0 {
          return;
        }
      }
      err := 0;
    }

    /** The head goes first, and is the only one. */
    method SendHead(h: seq<Byte>) returns (err: int)
      requires Quiet() && h != [] && |h| < MAX_SEND_BUF_SIZE
      modifies this`bytesLeft, this`head, this`stage, this`operIndex, this`sending, this`total2Send,
              sendBuffer, pcb`wire, pcb`refused, pcb`room
      ensures Valid() && head == h && sending == (err == 0) && stage == 0 && operIndex == 0
      ensures err != 0 <==> pcb.refused != old(pcb.refused)
      ensures err == 0 ==> Flushed(|h|, old(pcb.room))
    {
      hide WireOrder;
      LoadHead(h);
      hide Coded;
      err := SendBuffered();
      if err == 0 {
        Sending();
        sending := true;
      }
    }

    lemma NotFinished()
      requires Coded() && blocks == []
      ensures !finished
    {
      hide Unfinished, Body;
    }

    lemma Sending()
      requires Coded() && blocks == [] && stage == 0 && operIndex == 0
      ensures !finished && body == []
    {
      hide Unfinished, Body;
      NothingLoaded();
    }

    method WriteFront(n: nat) returns (err: int)
      requires WireOrder() && 0 < n <= bytesLeft
      modifies this`total2Send, this`bytesLeft, sendBuffer, pcb`wire, pcb`refused, pcb`room
      ensures WireOrder() && |pcb.wire| >= old(|pcb.wire|)
      ensures pcb.refused == if err == 0 then old(pcb.refused) else old(pcb.refused) + 1
      ensures bytesLeft == if err == 0 then old(bytesLeft) - n else old(bytesLeft)
    {
      ghost var wire, buffer := pcb.wire, sendBuffer[..bytesLeft];
      err := pcb.Write(sendBuffer[..n]);
      if err == 0 {
        total2Send := total2Send + n;
        bytesLeft := bytesLeft - n;
        if bytesLeft > 0 {
          Move(sendBuffer, 0, n, bytesLeft);
        }
        sendBuffer[bytesLeft] := NUL;
        assert sendBuffer[..bytesLeft] == buffer[n..];
        FrontSent(wire, base, buffer, n);
        assert pcb.wire == wire + buffer[..n];
      }
    }

    lemma Counted()
      requires WireOrder()
      ensures total2Send == |pcb.wire| - base
    {
    }

    lemma FrontSent(wire: seq<Byte>, from: nat, buffer: seq<Byte>, n: nat)
      requires from <= |wire| && n <= |buffer|
      ensures (wire + buffer[..n])[from..] + buffer[n..] == wire[from..] + buffer
    {
      assert (wire + buffer[..n])[from..] == wire[from..] + buffer[..n];
      Associate(wire[from..], buffer[..n], buffer[n..]);
      assert buffer[..n] + buffer[n..] == buffer;
    }

    /** The room a handler is given behind `left` bytes that are still buffered. */
    function RoomBehind(left: nat): int
      reads this`chunked
    {
      MAX_SEND_BUF_SIZE - left - 2 - if chunked then CHUNK_ROOM else 0
    }

    function Room(): int
      reads this`bytesLeft, this`chunked
    {
      RoomBehind(bytesLeft)
    }

    /** The handler is in its initial state. */
    predicate First()
      reads this`stage, this`operIndex
    {
      stage == 0 && operIndex == 0
    }

    /**
      Loads the next block behind what is still buffered.
      1: there is something to send; 0: nothing now; -1: the response is over, either because every
      byte of it has been acknowledged (`done`), or because the handler has no (more) content.
     */
    method LoadContentToSend(caller: Caller, hasContent: bool, read: Handler) returns (more: int, ghost done: bool)
      requires Valid() && sending && (stage == STAGE_END <==> finished) && (finished ==> bytesLeft == 0) && Obeys(read)
      modifies this`bytesLeft, this`stage, this`operIndex, this`body, this`blocks, this`finished, sendBuffer
      ensures -1 <= more <= 1
      ensures more >= 0 ==> Valid() && (stage == STAGE_END <==> finished)
      ensures more < 0 ==> WireOrder() && body == old(body) && blocks == old(blocks) && finished == old(finished)
      ensures more < 0 ==> bytesLeft == old(bytesLeft)
      ensures more < 0 <==> done || !hasContent || (!old(finished) && read(old(Room()), chunked, old(First())).size < 0)
      ensures old(blocks) <= blocks && (!hasContent ==> blocks == old(blocks))
      ensures old(finished) && hasContent ==> more <= 0
      ensures old(finished) ==> blocks == old(blocks) && stage == old(stage) && operIndex == old(operIndex)
      ensures done <==> old(finished) && caller == Sent && totalSent >= total2Send
      ensures done ==> more == -1 && Complete()
      ensures more == 0 ==> bytesLeft == old(bytesLeft)
      ensures hasContent && finished && more < 0 ==> done
      ensures hasContent && !old(finished) ==> Loaded(old(blocks), read(old(Room()), chunked, old(First())), more)
    {
      hide WireOrder, Coded;
      done := false;
      if stage >= STAGE_END && caller == Sent && totalSent >= total2Send {
        Counted();
        done := true;
        return -1, done;
      }
      if !hasContent {
        return -1, done;
      }
      if stage >= STAGE_END {
        return 0, done;
      }
      more := LoadNext(read);
    }

    /** The answer is loaded, or says that there is none. */
    ghost predicate Loaded(was: seq<seq<Byte>>, a: Answer, more: int)
      reads this`blocks, this`stage, this`operIndex
    {
      if a.size < 0 then more == -1 && blocks == was
      else
        && blocks == (if Waits(a) then was else was + [a.block]) && stage == a.stage && operIndex == a.index
        && more == if a.block == [] then 0 else 1
    }

    /**
      A response at its proper end: everything has left the buffer, and no more bytes lack their
      acknowledgement than were in flight when the request came in; none if nothing was.
     */
    ghost predicate Complete()
      reads this`finished, this`bytesLeft, this`base, this`ackBase, pcb`wire, pcb`acked
    {
      finished && bytesLeft == 0 && |pcb.wire| - pcb.acked <= base - ackBase
    }

    /** The next block, behind what is still buffered. */
    method LoadNext(read: Handler) returns (more: int)
      requires Valid() && sending && stage < STAGE_END && !finished && Obeys(read)
      modifies this`bytesLeft, this`stage, this`operIndex, this`body, this`blocks, this`finished, sendBuffer
      ensures more >= 0 ==> Valid() && (stage == STAGE_END <==> finished)
      ensures more < 0 ==> WireOrder() && body == old(body) && blocks == old(blocks) && finished == old(finished)
      ensures more <= 0 ==> bytesLeft == old(bytesLeft)
      ensures old(blocks) <= blocks && Loaded(old(blocks), read(old(Room()), chunked, old(First())), more)
    {
      hide WireOrder, Join, Unfinished, Body, Load;
      var first := stage == 0 && operIndex == 0;
      var a := read(Room(), chunked, first);
      assert Honest(a, Room(), chunked, first);
      hide Obeys;
      stage, operIndex := a.stage, a.index;
      if a.size < 0 {
        stage := STAGE_END;
        return -1;
      }
      if a.size == 0 && a.stage == 0 && a.index == 0 {
        return 0;
      }
      if chunked {
        LoadChunk(first, a.block, a.stage == STAGE_END);
      } else {
        LoadPlain(a.block, a.stage == STAGE_END);
      }
      more := if a.size == 0 then 0 else 1;
    }

    method LoadChunk(first: bool, block: seq<Byte>, last: bool)
      requires WireOrder() && chunked && !finished && (blocks == [] <==> first) && body == Unfinished(true, blocks)
      requires block != [] ==> bytesLeft + 2 + CHUNK_ROOM + |block| + (if last then 5 else 0) <= MAX_SEND_BUF_SIZE
      requires bytesLeft <= MAX_SEND_BUF_SIZE
      modifies this`bytesLeft, this`body, this`blocks, this`finished, sendBuffer
      ensures WireOrder() && blocks == old(blocks) + [block] && finished == last && bytesLeft <= MAX_SEND_BUF_SIZE
      ensures body == if last then Body(true, blocks) else Unfinished(true, blocks)
      ensures block == [] ==> bytesLeft == old(bytesLeft)
    {
      hide WireOrder, Unfinished, Body, Load;
      NothingLoaded();
      NextLoad(true, blocks, block);
      if |block| > 0 {
        AppendChunk(first, block, last);
      } else {
        assert body + [] == body;
      }
      blocks, finished := blocks + [block], last;
    }

    method LoadPlain(block: seq<Byte>, last: bool)
      requires WireOrder() && !chunked && bytesLeft + |block| <= MAX_SEND_BUF_SIZE && body == Join(blocks)
      modifies this`bytesLeft, this`body, this`blocks, this`finished, sendBuffer
      ensures WireOrder() && blocks == old(blocks) + [block] && finished == last && bytesLeft <= MAX_SEND_BUF_SIZE
      ensures body == Join(blocks)
      ensures block == [] ==> bytesLeft == old(bytesLeft)
    {
      hide WireOrder, Join;
      JoinAppend(blocks, [block]);
      JoinOne(block);
      if |block| > 0 {
        Append(block);
      } else {
        assert body + [] == body;
      }
      blocks, finished := blocks + [block], last;
    }

    lemma NothingLoaded()
      ensures Join([]) == [] && Unfinished(true, []) == [] && Body(true, []) == []
      ensures Load(true, true, []) == Load(true, false, []) == Load(false, true, []) == Load(false, false, []) == []
    {
    }

    lemma JoinOne(block: seq<Byte>)
      ensures Join([block]) == block
    {
      assert [block][1..] == [] && block + [] == block;
    }

    /** Appends a block as it is. */
    method Append(block: seq<Byte>)
      requires WireOrder() && bytesLeft + |block| <= MAX_SEND_BUF_SIZE
      modifies this`bytesLeft, this`body, sendBuffer
      ensures WireOrder() && body == old(body) + block && bytesLeft <= MAX_SEND_BUF_SIZE
    {
      ghost var buffer := sendBuffer[..bytesLeft];
      Store(sendBuffer, bytesLeft, block);
      bytesLeft := bytesLeft + |block|;
      body := body + block;
      assert sendBuffer[..bytesLeft] == buffer + block;
      Associate(pcb.wire[base..], buffer, block);
      Associate(head, old(body), block);
    }

    /**
      The block has been read 10 bytes further on than it belongs; its size line is put right before
      it, the tail behind the last one, and the whole is moved to where the buffered bytes end.
     */
    method AppendChunk(first: bool, block: seq<Byte>, last: bool)
      requires WireOrder() && block != []
      requires bytesLeft + 2 + CHUNK_ROOM + |block| + (if last then 5 else 0) <= MAX_SEND_BUF_SIZE
      modifies this`bytesLeft, this`body, sendBuffer
      ensures WireOrder() && body == old(body) + Load(first, last, block) && bytesLeft <= MAX_SEND_BUF_SIZE
    {
      hide Hex, Splice;
      var at := bytesLeft;
      var size := SizeLine(first, |block|);
      HexShort(|block|);
      var tail := if last then TAIL else [];
      var n := |size| + |block| + |tail|;
      ghost var was := sendBuffer[..];
      Store(sendBuffer, at + CHUNK_ROOM, block);
      Store(sendBuffer, at + CHUNK_ROOM - |size|, size);
      Store(sendBuffer, at + CHUNK_ROOM + |block|, tail);
      Assembled(was, at, size, block, tail);
      Move(sendBuffer, at, at + CHUNK_ROOM - |size|, n);
      bytesLeft := at + n;
      assert sendBuffer[..bytesLeft] == was[..at] + (size + (block + tail));
      body := body + Load(first, last, block);
      Associate(pcb.wire[base..], was[..at], size + (block + tail));
      Associate(head, old(body), size + (block + tail));
    }

    /** Three stores around a block make up its chunk, and nothing before the block has changed. */
    lemma Assembled(was: seq<Byte>, at: nat, size: seq<Byte>, block: seq<Byte>, tail: seq<Byte>)
      requires |size| <= CHUNK_ROOM && at + CHUNK_ROOM + |block| + |tail| <= |was|
      ensures var from := at + CHUNK_ROOM - |size|;
              var n := |size| + |block| + |tail|;
              var two := Splice(Splice(was, at + CHUNK_ROOM, block), from, size);
              var now := Splice(two, at + CHUNK_ROOM + |block|, tail);
              Splice(now, at, now[from..from + n])[..at + n] == was[..at] + (size + (block + tail))
    {
      var from := at + CHUNK_ROOM - |size|;
      var n := |size| + |block| + |tail|;
      var one := Splice(was, at + CHUNK_ROOM, block);
      var two := Splice(one, from, size);
      var now := Splice(two, at + CHUNK_ROOM + |block|, tail);
      var chunk := size + (block + tail);
      hide Splice;
      forall k | 0 <= k < |was|
        ensures now[k] == if k < from then was[k] else if k < from + n then chunk[k - from] else was[k]
      {
        SpliceAt(was, at + CHUNK_ROOM, block, k);
        SpliceAt(one, from, size, k);
        SpliceAt(two, at + CHUNK_ROOM + |block|, tail, k);
      }
      var region := now[from..from + n];
      assert region == chunk;
      var result := Splice(now, at, region);
      forall k | 0 <= k < at + n
        ensures result[k] == (was[..at] + chunk)[k]
      {
        SpliceAt(now, at, region, k);
      }
      assert result[..at + n] == was[..at] + chunk;
    }

    lemma Behind(wire: seq<Byte>, from: nat, head: seq<Byte>, body: seq<Byte>)
      requires from <= |wire| && wire[from..] == head + body
      ensures from + |head| <= |wire| && wire[from..from + |head|] == head && wire[from + |head|..] == body
    {
      var w := wire[from..];
      assert w[|head|..] == body && w[..|head|] == head;
      assert wire[from + |head|..] == w[|head|..];
    }

    /** What the peer makes of a finished chunked response whose last byte has left the buffer. */
    lemma PeerDecodes()
      requires Valid() && chunked && finished && bytesLeft == 0
      ensures base + |head| <= |pcb.wire| && pcb.wire[base..base + |head|] == head
      ensures DecodeBody(pcb.wire[base + |head|..]) == Decoded(Join(blocks), [])
              <==> blocks[0] != [] && blocks[|blocks| - 1] != []
    {
      hide DecodeBody;
      assert pcb.wire[base..] + [] == pcb.wire[base..];
      Behind(pcb.wire, base, head, body);
      RoundTrip(blocks);
    }
  }
}
